/**
 * The choice of a codec and file extension in `find_valid_recording_parameters`
 * of `utils/video_recorder.py`.
 *
 * The source test-records a tiny clip for each codec/extension pair and keeps
 * the first pair whose file comes out non-trivial. That probe (OpenCV, a
 * temporary directory, file sizes) is a parameter here: `probe(codec, ext)`
 * says whether recording with that pair works.
 */
module RecordingParameters {
  import opened Wrappers

  /** The codecs tried, in order. */
  const Codecs: seq<string> := ["avc1", "XVID", "MJPG"]

  /** The extensions tried when the caller prefers none, in order. */
  const DefaultExts: seq<string> := ["mp4", "mkv", "avi"]

  /** The number of occurrences of `x` in `xs`. */
  function Count<T(==)>(xs: seq<T>, x: T): nat
  {
    multiset(xs)[x]
  }

  /** `s.replace(".", "")`: every dot removed, every other character kept in order. */
  function StripDots(s: string): (r: string)
    ensures '.' !in r
    ensures forall c :: c != '.' ==> multiset(r)[c] == multiset(s)[c]
    ensures '.' !in s ==> r == s
    ensures |s| == 1 ==> r == (if s[0] == '.' then "" else s)
  {
    if |s| == 0 then ""
    else
      assert s == [s[0]] + s[1..];
      (if s[0] == '.' then "" else [s[0]]) + StripDots(s[1..])
  }

  /**
   * Stripping works piece by piece: with the one-character case in
   * `StripDots`'s contract, this fixes the result, characters kept in order.
   */
  lemma {:induction false} StripDotsAppend(a: string, b: string)
    ensures StripDots(a + b) == StripDots(a) + StripDots(b)
  {
    if |a| > 0 {
      var head := if a[0] == '.' then "" else [a[0]];
      assert (a + b)[0] == a[0];
      assert (a + b)[1..] == a[1..] + b;
      assert StripDots(a + b) == head + StripDots(a[1..] + b);
      assert StripDots(a) == head + StripDots(a[1..]);
      StripDotsAppend(a[1..], b);
      assert head + (StripDots(a[1..]) + StripDots(b)) == (head + StripDots(a[1..])) + StripDots(b);
    } else {
      assert a + b == b;
    }
  }

  /** `xs` without any occurrence of `x`, order kept: the reference for `list.remove` on a list holding `x` once. */
  function Without(xs: seq<string>, x: string): (r: seq<string>)
    ensures x !in r
    ensures multiset(r) == multiset(xs)[x := 0]
  {
    if |xs| == 0 then []
    else
      assert xs == [xs[0]] + xs[1..];
      (if xs[0] == x then [] else [xs[0]]) + Without(xs[1..], x)
  }

  /** Python's `list.index(x)`: the position of the first occurrence of `x`. */
  function IndexOf(xs: seq<string>, x: string): (i: nat)
    requires x in xs
    ensures i < |xs| && xs[i] == x && x !in xs[..i]
  {
    if xs[0] == x then 0
    else
      var k := IndexOf(xs[1..], x);
      assert xs[..k + 1] == [xs[0]] + xs[1..][..k];
      k + 1
  }

  /** Python's `list.remove(x)`: drop the first occurrence of `x`. */
  function RemoveFirst(xs: seq<string>, x: string): (r: seq<string>)
    requires x in xs
    ensures |r| == |xs| - 1
    ensures multiset(r) == multiset(xs) - multiset{x}
    ensures r == xs[..IndexOf(xs, x)] + xs[IndexOf(xs, x) + 1..]
  {
    var i := IndexOf(xs, x);
    var r := (if xs[0] == x then
                assert xs == [x] + xs[1..];
                xs[1..]
              else
                var rest := RemoveFirst(xs[1..], x);
                RemoveAfterHead(xs, x, rest);
                [xs[0]] + rest);
    assert r == xs[..i] + xs[i + 1..];
    r
  }

  /** `list.remove` splices out the first occurrence: some position holds `x`, no earlier one does, and only it is skipped. */
  lemma RemoveFirstSplices(xs: seq<string>, x: string)
    requires x in xs
    ensures exists i :: 0 <= i < |xs| && xs[i] == x && x !in xs[..i] && RemoveFirst(xs, x) == xs[..i] + xs[i + 1..]
  {
    var i := IndexOf(xs, x);
    var r := RemoveFirst(xs, x);
    assert r == xs[..i] + xs[i + 1..];
    assert 0 <= i < |xs| && xs[i] == x && x !in xs[..i] && r == xs[..i] + xs[i + 1..];
  }

  /** The recursive step of `RemoveFirst`: removing from the tail and putting the head back. */
  lemma RemoveAfterHead(xs: seq<string>, x: string, rest: seq<string>)
    requires x in xs && xs[0] != x
    requires multiset(rest) == multiset(xs[1..]) - multiset{x}
    requires rest == xs[1..][..IndexOf(xs[1..], x)] + xs[1..][IndexOf(xs[1..], x) + 1..]
    ensures multiset([xs[0]] + rest) == multiset(xs) - multiset{x}
    ensures [xs[0]] + rest == xs[..IndexOf(xs, x)] + xs[IndexOf(xs, x) + 1..]
  {
    assert xs == [xs[0]] + xs[1..];
    ConsMinus(xs[0], x, xs[1..], rest);
    assert IndexOf(xs, x) == IndexOf(xs[1..], x) + 1;
    SkipAfterHead(xs, IndexOf(xs[1..], x));
  }

  /** Putting back a head other than `x` commutes with taking one `x` away. */
  lemma ConsMinus(h: string, x: string, tail: seq<string>, rest: seq<string>)
    requires h != x && multiset(rest) == multiset(tail) - multiset{x}
    ensures multiset([h] + rest) == multiset([h] + tail) - multiset{x}
  {
    assert multiset([h] + rest) == multiset{h} + multiset(rest);
    assert multiset([h] + tail) == multiset{h} + multiset(tail);
  }

  /** Skipping position `k` of the tail is skipping position `k + 1` of the whole list. */
  lemma SkipAfterHead(xs: seq<string>, k: nat)
    requires k + 1 < |xs|
    ensures [xs[0]] + (xs[1..][..k] + xs[1..][k + 1..]) == xs[..k + 1] + xs[k + 2..]
  {
    assert xs[..k + 1] == [xs[0]] + xs[1..][..k];
    assert xs[k + 2..] == xs[1..][k + 1..];
  }

  /** On a list that holds `x` exactly once, removing its first occurrence removes it altogether. */
  lemma {:induction false} RemoveFirstOfUnique(xs: seq<string>, x: string)
    requires Count(xs, x) == 1
    ensures RemoveFirst(xs, x) == Without(xs, x)
  {
    assert xs == [xs[0]] + xs[1..];
    if xs[0] == x {
      assert Count(xs[1..], x) == 0;
      WithoutAbsent(xs[1..], x);
    } else {
      assert Count(xs[1..], x) == 1;
      RemoveFirstOfUnique(xs[1..], x);
    }
  }

  lemma {:induction false} WithoutAbsent(xs: seq<string>, x: string)
    requires x !in xs
    ensures Without(xs, x) == xs
  {
    if |xs| > 0 {
      assert xs == [xs[0]] + xs[1..];
      WithoutAbsent(xs[1..], x);
    }
  }

  /** The raw preferred extension counts as a preference when it is given and not the empty string. */
  predicate HasPreference(preferred: Option<string>)
  {
    preferred.Some? && preferred.value != ""
  }

  /**
   * The extension list: with a preference, its dot-stripped form goes first
   * and is dropped from the default list if it was there; otherwise the
   * default list as it is.
   */
  function ExtensionOrder(preferred: Option<string>): (r: seq<string>)
    ensures !HasPreference(preferred) ==> r == DefaultExts
    ensures HasPreference(preferred) ==> |r| > 0 && r[0] == StripDots(preferred.value)
    ensures |r| == if HasPreference(preferred) && StripDots(preferred.value) !in DefaultExts
                   then |DefaultExts| + 1 else |DefaultExts|
  {
    if HasPreference(preferred) then
      var ext := StripDots(preferred.value);
      [ext] + (if ext in DefaultExts then RemoveFirst(DefaultExts, ext) else DefaultExts)
    else DefaultExts
  }

  /**
   * With a preference, the stripped extension is first and appears exactly
   * once, and the rest is the default list without it, in its own order.
   * Without one, the default list is used unchanged.
   */
  lemma ExtensionOrderPrefersFirst(preferred: Option<string>)
    ensures var r := ExtensionOrder(preferred);
            if HasPreference(preferred) then
              var ext := StripDots(preferred.value);
              && |r| > 0 && r[0] == ext
              && Count(r, ext) == 1
              && r[1..] == Without(DefaultExts, ext)
            else r == DefaultExts
  {
    if HasPreference(preferred) {
      var ext := StripDots(preferred.value);
      DefaultsDistinct(ext);
      MoveToFront(DefaultExts, ext);
    }
  }

  lemma DefaultsDistinct(e: string)
    ensures e in DefaultExts ==> Count(DefaultExts, e) == 1
  {
  }

  /** Moving a value that occurs at most once to the front of a list, as `ExtensionOrder` does. */
  lemma MoveToFront(xs: seq<string>, x: string)
    requires x in xs ==> Count(xs, x) == 1
    ensures var r := [x] + (if x in xs then RemoveFirst(xs, x) else xs);
            Count(r, x) == 1 && r[1..] == Without(xs, x)
  {
    var rest := if x in xs then RemoveFirst(xs, x) else xs;
    if x in xs {
      RemoveFirstOfUnique(xs, x);
    } else {
      WithoutAbsent(xs, x);
    }
    assert ([x] + rest)[1..] == rest;
    assert multiset([x] + rest) == multiset{x} + multiset(rest);
  }

  /** Every extension the defaults know of is tried once, whatever the preference. */
  lemma ExtensionOrderCoversDefaults(preferred: Option<string>, e: string)
    requires e in DefaultExts
    ensures Count(ExtensionOrder(preferred), e) == 1
  {
    ExtensionOrderPrefersFirst(preferred);
    var r := ExtensionOrder(preferred);
    if HasPreference(preferred) {
      var ext := StripDots(preferred.value);
      assert r == [ext] + Without(DefaultExts, ext);
      assert multiset(r) == multiset{ext} + multiset(Without(DefaultExts, ext));
      if e != ext {
        assert Count(r[1..], e) == Count(DefaultExts, e);
      }
    }
  }

  /** `i * n`, written as repeated addition so that position arithmetic stays linear. */
  function Offset(i: nat, n: nat): nat
  {
    if i == 0 then 0 else Offset(i - 1, n) + n
  }

  lemma {:induction false} OffsetIsProduct(i: nat, n: nat)
    ensures Offset(i, n) == i * n
  {
    if i > 0 {
      OffsetIsProduct(i - 1, n);
      assert i * n == (i - 1) * n + n;
    }
  }

  /**
   * The preference is judged before its dots are stripped: a preference made
   * only of dots, such as ".", puts the empty extension first.
   */
  lemma DotOnlyPreference(p: string)
    requires p != "" && forall i :: 0 <= i < |p| ==> p[i] == '.'
    ensures ExtensionOrder(Some(p)) == ["", "mp4", "mkv", "avi"]
  {
    forall c | c != '.'
      ensures multiset(StripDots(p))[c] == 0
    {
      assert c !in p;
    }
    assert multiset(StripDots(p)) == multiset{};
    EmptiedPreference(Some(p));
    DefaultsAfterEmpty();
  }

  lemma DefaultsAfterEmpty()
    ensures [""] + DefaultExts == ["", "mp4", "mkv", "avi"]
  {
  }

  lemma EmptiedPreference(preferred: Option<string>)
    requires HasPreference(preferred) && StripDots(preferred.value) == ""
    ensures ExtensionOrder(preferred) == [""] + DefaultExts
  {
    ExtensionOrderPrefersFirst(preferred);
    var r := ExtensionOrder(preferred);
    WithoutAbsent(DefaultExts, "");
    assert r == [r[0]] + r[1..];
  }

  /** `product(codecs, exts)`: every pair, codec-major. */
  function Pairs(codecs: seq<string>, exts: seq<string>): (r: seq<(string, string)>)
    ensures |r| == Offset(|codecs|, |exts|)
  {
    if |codecs| == 0 then []
    else Row(codecs[0], exts) + Pairs(codecs[1..], exts)
  }

  /** One codec paired with each extension in turn. */
  function Row(codec: string, exts: seq<string>): (r: seq<(string, string)>)
    ensures |r| == |exts|
    ensures forall j :: 0 <= j < |exts| ==> r[j] == (codec, exts[j])
  {
    seq(|exts|, j requires 0 <= j < |exts| => (codec, exts[j]))
  }

  /** Codec-major order: the pair of codec `i` and extension `j` sits at position `i * |exts| + j`. */
  lemma {:induction false} PairsIndex(codecs: seq<string>, exts: seq<string>, i: nat, j: nat)
    requires i < |codecs| && j < |exts|
    ensures Offset(i, |exts|) + j < |Pairs(codecs, exts)|
    ensures Pairs(codecs, exts)[Offset(i, |exts|) + j] == (codecs[i], exts[j])
  {
    var n := |exts|;
    assert Pairs(codecs, exts) == Row(codecs[0], exts) + Pairs(codecs[1..], exts);
    if i > 0 {
      PairsIndex(codecs[1..], exts, i - 1, j);
    }
  }

  /** The first pair that the probe accepts, if any. */
  function FirstWorking(pairs: seq<(string, string)>, probe: (string, string) -> bool): (r: Option<nat>)
    ensures r.Some? ==> r.value < |pairs| && probe(pairs[r.value].0, pairs[r.value].1)
    ensures r.Some? ==> forall k :: 0 <= k < r.value ==> !probe(pairs[k].0, pairs[k].1)
    ensures r.None? ==> forall k :: 0 <= k < |pairs| ==> !probe(pairs[k].0, pairs[k].1)
    decreases |pairs|
  {
    if |pairs| == 0 then None
    else if probe(pairs[0].0, pairs[0].1) then Some(0)
    else
      match FirstWorking(pairs[1..], probe)
      case None => None
      case Some(k) => Some(k + 1)
  }

  /** The source's result triple: whether a pair was found, and its codec and extension. */
  datatype Found = Found(ok: bool, codec: Option<string>, ext: Option<string>)

  /** The candidate pairs, in the order they are tried, for a preferred extension. */
  function Candidates(preferred: Option<string>): seq<(string, string)>
  {
    Pairs(Codecs, ExtensionOrder(preferred))
  }

  /**
   * `find_valid_recording_parameters`: probe the candidates in order and stop
   * at the first that works. `ok` holds exactly when some candidate works, and
   * then the pair returned works and every candidate before it failed.
   */
  method FindValidParameters(preferred: Option<string>, probe: (string, string) -> bool) returns (res: Found)
    ensures res.ok <==> res.codec.Some? && res.ext.Some?
    ensures res.ok <==> exists k :: 0 <= k < |Candidates(preferred)| && probe(Candidates(preferred)[k].0, Candidates(preferred)[k].1)
    ensures res.ok ==> probe(res.codec.value, res.ext.value)
    ensures res == Chosen(preferred, probe)
  {
    var pairs := Candidates(preferred);
    var w := ProbeInOrder(pairs, probe);
    FirstWorkingUnique(pairs, probe, w);
    var goodCodec: Option<string> := None;
    var goodExt: Option<string> := None;
    if w.Some? {
      goodCodec, goodExt := Some(pairs[w.value].0), Some(pairs[w.value].1);
    }
    res := Found(goodCodec.Some? && goodExt.Some?, goodCodec, goodExt);
  }

  /** The loop over the candidates: the position of the first that the probe accepts, stopping there. */
  method ProbeInOrder(pairs: seq<(string, string)>, probe: (string, string) -> bool) returns (w: Option<nat>)
    ensures w.Some? ==> w.value < |pairs| && probe(pairs[w.value].0, pairs[w.value].1)
    ensures w.Some? ==> forall m :: 0 <= m < w.value ==> !probe(pairs[m].0, pairs[m].1)
    ensures w.None? ==> forall m :: 0 <= m < |pairs| ==> !probe(pairs[m].0, pairs[m].1)
  {
    w := None;
    var k := 0;
    while k < |pairs|
      invariant 0 <= k <= |pairs|
      invariant forall m :: 0 <= m < k ==> !probe(pairs[m].0, pairs[m].1)
    {
      if probe(pairs[k].0, pairs[k].1) {
        w := Some(k);
        return;
      }
      k := k + 1;
    }
  }

  /** The probing loop stops where the reference search does. */
  lemma FirstWorkingUnique(pairs: seq<(string, string)>, probe: (string, string) -> bool, w: Option<nat>)
    requires w.Some? ==> w.value < |pairs| && probe(pairs[w.value].0, pairs[w.value].1)
    requires w.Some? ==> forall m :: 0 <= m < w.value ==> !probe(pairs[m].0, pairs[m].1)
    requires w.None? ==> forall m :: 0 <= m < |pairs| ==> !probe(pairs[m].0, pairs[m].1)
    ensures w == FirstWorking(pairs, probe)
  {
  }

  /** Some codec/extension pair tried for this preference records successfully. */
  predicate SomeCandidateWorks(preferred: Option<string>, probe: (string, string) -> bool)
  {
    exists k :: 0 <= k < |Candidates(preferred)| && probe(Candidates(preferred)[k].0, Candidates(preferred)[k].1)
  }

  /** The pair the probing loop settles on, as a function of the probe. */
  function Chosen(preferred: Option<string>, probe: (string, string) -> bool): (res: Found)
    ensures res.ok <==> SomeCandidateWorks(preferred, probe)
    ensures res.ok ==> res.codec.Some? && res.ext.Some? && probe(res.codec.value, res.ext.value)
    ensures !res.ok ==> res.codec.None? && res.ext.None?
  {
    var cands := Candidates(preferred);
    match FirstWorking(cands, probe)
    case None => Found(false, None, None)
    case Some(k) => Found(true, Some(cands[k].0), Some(cands[k].1))
  }

  /** Codec `i'` with extension `j'` is tried before codec `i` with extension `j`. */
  predicate TriedBefore(i': nat, j': nat, i: nat, j: nat)
  {
    i' < i || (i' == i && j' < j)
  }

  /** The first working pair among all pairs of `codecs` and `exts`, codec-major, is the pair at `i`, `j`. */
  ghost predicate FirstInGrid(codecs: seq<string>, exts: seq<string>, probe: (string, string) -> bool, i: nat, j: nat)
    requires i < |codecs| && j < |exts|
  {
    && probe(codecs[i], exts[j])
    && forall i': nat, j': nat :: i' < |codecs| && j' < |exts| && TriedBefore(i', j', i, j) ==> !probe(codecs[i'], exts[j'])
  }

  lemma FirstWorkingIsFirstInGrid(codecs: seq<string>, exts: seq<string>, probe: (string, string) -> bool, i: nat, j: nat)
    requires i < |codecs| && j < |exts|
    ensures FirstWorking(Pairs(codecs, exts), probe) == Some(Offset(i, |exts|) + j) ==> FirstInGrid(codecs, exts, probe, i, j)
  {
    var n := |exts|;
    if FirstWorking(Pairs(codecs, exts), probe) == Some(Offset(i, n) + j) {
      PairsIndex(codecs, exts, i, j);
      forall i': nat, j': nat | i' < |codecs| && j' < n && TriedBefore(i', j', i, j)
        ensures !probe(codecs[i'], exts[j'])
      {
        PairsIndex(codecs, exts, i', j');
        EarlierIndex(i', j', i, j, n);
      }
    }
  }

  lemma FirstInGridIsFirstWorking(codecs: seq<string>, exts: seq<string>, probe: (string, string) -> bool, i: nat, j: nat)
    requires i < |codecs| && j < |exts|
    ensures FirstInGrid(codecs, exts, probe, i, j) ==> FirstWorking(Pairs(codecs, exts), probe) == Some(Offset(i, |exts|) + j)
  {
    if FirstInGrid(codecs, exts, probe, i, j) {
      var n := |exts|;
      var pairs := Pairs(codecs, exts);
      var target := Offset(i, n) + j;
      PairsIndex(codecs, exts, i, j);
      var w := FirstWorking(pairs, probe);
      assert pairs[target] == (codecs[i], exts[j]);
      assert w.Some? && w.value <= target;
      if w.value < target {
        var q, r := SplitIndex(w.value, n, i, j);
        PairsIndex(codecs, exts, q, r);
        assert false;
      }
    }
  }

  /**
   * Codec-major search: the loop settles on codec `i` with extension `j`
   * exactly when that pair works and every pair tried before it, all
   * extensions of earlier codecs and earlier extensions of codec `i`, failed.
   */
  lemma CodecMajorFirst(preferred: Option<string>, probe: (string, string) -> bool, i: nat, j: nat)
    requires i < |Codecs| && j < |ExtensionOrder(preferred)|
    ensures var exts := ExtensionOrder(preferred);
            FirstWorking(Candidates(preferred), probe) == Some(Offset(i, |exts|) + j)
            <==> FirstInGrid(Codecs, exts, probe, i, j)
  {
    var exts := ExtensionOrder(preferred);
    assert Candidates(preferred) == Pairs(Codecs, exts);
    GridOrder(Codecs, exts, probe, i, j);
  }

  /** `CodecMajorFirst` for any lists of codecs and extensions. */
  lemma GridOrder(codecs: seq<string>, exts: seq<string>, probe: (string, string) -> bool, i: nat, j: nat)
    requires i < |codecs| && j < |exts|
    ensures FirstWorking(Pairs(codecs, exts), probe) == Some(Offset(i, |exts|) + j)
            <==> FirstInGrid(codecs, exts, probe, i, j)
  {
    FirstWorkingIsFirstInGrid(codecs, exts, probe, i, j);
    FirstInGridIsFirstWorking(codecs, exts, probe, i, j);
  }


  lemma {:induction false} OffsetMono(i': nat, i: nat, n: nat)
    requires i' < i
    ensures Offset(i', n) + n <= Offset(i, n)
    decreases i
  {
    if i' < i - 1 {
      OffsetMono(i', i - 1, n);
    }
  }

  lemma EarlierIndex(i': nat, j': nat, i: nat, j: nat, n: nat)
    requires j' < n && j < n && TriedBefore(i', j', i, j)
    ensures Offset(i', n) + j' < Offset(i, n) + j
  {
  }

  /** Every position in the grid belongs to one codec row and one column within it. */
  lemma {:induction false} Decompose(w: nat, n: nat) returns (q: nat, r: nat)
    requires n > 0
    ensures w == Offset(q, n) + r && r < n
    decreases w
  {
    if w < n {
      q, r := 0, w;
    } else {
      q, r := Decompose(w - n, n);
      q := q + 1;
    }
  }

  lemma SplitIndex(w: nat, n: nat, i: nat, j: nat) returns (q: nat, r: nat)
    requires j < n && w < Offset(i, n) + j
    ensures w == Offset(q, n) + r && r < n
    ensures TriedBefore(q, r, i, j)
  {
    q, r := Decompose(w, n);
    if q > i {
      OffsetMono(i, q, n);
      assert false;
    }
  }
}
