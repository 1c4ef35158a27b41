/**
 * The decision logic of `Video_Recorder` in `utils/video_recorder.py`: the
 * checks its constructor makes, the choice of codec and extension, and the
 * timelapse frame skipping in `write`.
 *
 * The OpenCV writer itself is reduced to a flag saying whether it has been
 * created (`_vwriter` is set); the test recording that decides whether a codec/extension pair
 * works is the `probe` parameter, as in `RecordingParameters`.
 */
module VideoRecorder {
  import opened Wrappers
  import opened RecordingParameters

  /** The exceptions the constructor can raise. */
  datatype RecorderError =
    | TimelapseBelowOne        // ValueError: timelapse factor below 1
    | InvalidCodec(codec: string)  // ValueError: an explicit codec that is not 4 characters
    | BadEncoding              // IOError: no codec/extension pair could record

  /**
   * The recorder's state. `tlCount` accumulates `tlIncrement` per frame and a
   * frame is kept each time it reaches 1; `codec` and `ext` are the encoding
   * chosen at construction (`ext` stays unset when recording is disabled).
   */
  datatype Recorder = Recorder(
    enabled: bool,
    fps: real,
    tlFactor: real,
    tlEnabled: bool,
    tlIncrement: real,
    tlCount: real,
    codec: Option<string>,
    ext: Option<string>,
    writerCreated: bool)

  /** Factors below this are refused (a tolerance below 1). */
  const MinTimelapseFactor: real := 0.99999

  /** Timelapse is only switched on for factors more than this above 1. */
  const TimelapseMargin: real := 0.01

  /** Python's `max(a, b)`. */
  function Max(a: real, b: real): (r: real)
    ensures r >= a && r >= b && (r == a || r == b)
  {
    if b > a then b else a
  }

  /** What the timelapse counter keeps between writes. */
  ghost predicate Valid(rec: Recorder)
  {
    rec.tlEnabled ==> 0.0 < rec.tlIncrement < 1.0 && 0.0 <= rec.tlCount <= 1.0
  }

  /**
   * `_figure_out_encoding`: nothing to do when recording is disabled. With no
   * codec given, search the codec/extension pairs, preferring the save path's
   * extension without its dots, and fail if none works. With a codec given,
   * it must be exactly 4 characters; the extension is the save path's,
   * without its dots.
   */
  function FigureOutEncoding(rec: Recorder, origExt: string, probe: (string, string) -> bool): (r: Result<Recorder, RecorderError>)
    ensures !rec.enabled ==> r == Success(rec)
    ensures r.Failure? ==> rec.enabled
    ensures r.Success? ==> r.value.(codec := rec.codec, ext := rec.ext) == rec
    ensures rec.enabled && rec.codec.Some? ==>
              if |rec.codec.value| == 4 then r == Success(rec.(ext := Some(StripDots(origExt))))
              else r == Failure(InvalidCodec(rec.codec.value))
    ensures rec.enabled && rec.codec.None? ==>
              (r.Success? <==> SomeCandidateWorks(Some(StripDots(origExt)), probe))
    ensures rec.enabled && rec.codec.None? && r.Success? ==>
              && r.value.codec.Some? && r.value.ext.Some?
              && probe(r.value.codec.value, r.value.ext.value)
              && r.value == rec.(codec := Chosen(Some(StripDots(origExt)), probe).codec,
                                  ext := Chosen(Some(StripDots(origExt)), probe).ext)
    ensures rec.enabled && rec.codec.None? && r.Failure? ==> r.error == BadEncoding
    ensures r.Failure? ==> r.error != TimelapseBelowOne
  {
    if !rec.enabled then Success(rec)
    else
      var ext := StripDots(origExt);
      match rec.codec
      case None =>
        var found := Chosen(Some(ext), probe);
        if !found.ok then Failure(BadEncoding)
        else Success(rec.(codec := found.codec, ext := found.ext))
      case Some(c) =>
        if |c| != 4 then Failure(InvalidCodec(c))
        else Success(rec.(ext := Some(ext)))
  }

  /**
   * `Video_Recorder.__init__`, with the save path reduced to its extension
   * `origExt`. Factors below 0.99999 are refused before any encoding check;
   * timelapse is on exactly when the factor exceeds 1 by more than 0.01; the
   * per-frame increment is the reciprocal of the factor, capped at 1; the
   * counter starts full, so the first frame is kept.
   */
  function New(fps: real, factor: real, enabled: bool, codec: Option<string>, origExt: string,
               probe: (string, string) -> bool): (r: Result<Recorder, RecorderError>)
    ensures factor < MinTimelapseFactor <==> r == Failure(TimelapseBelowOne)
    ensures factor >= MinTimelapseFactor ==>
              r == FigureOutEncoding(Recorder(enabled, fps, factor, factor - 1.0 > TimelapseMargin,
                                              1.0 / Max(1.0, factor), 1.0, codec, None, false), origExt, probe)
    ensures factor >= MinTimelapseFactor && !enabled ==> r.Success?
    ensures factor >= MinTimelapseFactor && enabled && codec.Some? ==> (r.Success? <==> |codec.value| == 4)
    ensures factor >= MinTimelapseFactor && enabled && codec.None? ==>
              && (r.Success? <==> SomeCandidateWorks(Some(StripDots(origExt)), probe))
              && (r.Failure? ==> r.error == BadEncoding)
    ensures r.Success? ==>
              && r.value.enabled == enabled
              && r.value.fps == fps
              && r.value.tlFactor == factor
              && (r.value.tlEnabled <==> factor - 1.0 > TimelapseMargin)
              && r.value.tlIncrement * Max(1.0, factor) == 1.0
              && r.value.tlCount == 1.0
              && !r.value.writerCreated
              && (codec.Some? ==> r.value.codec == codec)
    ensures r.Success? ==> Valid(r.value)
  {
    if factor < MinTimelapseFactor then Failure(TimelapseBelowOne)
    else FigureOutEncoding(Fresh(fps, factor, enabled, codec), origExt, probe)
  }

  /** The recorder `__init__` sets up before choosing its encoding; `factor` is at least 0.99999. */
  function Fresh(fps: real, factor: real, enabled: bool, codec: Option<string>): (rec: Recorder)
    requires factor >= MinTimelapseFactor
    ensures rec.tlIncrement * Max(1.0, factor) == 1.0
    ensures Valid(rec)
  {
    Reciprocal(Max(1.0, factor));
    Recorder(enabled, fps, factor, factor - 1.0 > TimelapseMargin, 1.0 / Max(1.0, factor), 1.0, codec, None, false)
  }

  /**
   * `write`: a disabled recorder keeps nothing and changes nothing. With
   * timelapse on, the counter grows by the increment and the frame is kept
   * only when the counter reaches 1, which then gives up 1. A kept frame creates
   * the writer if it did not exist yet. Returns whether the frame was kept.
   */
  function Write(rec: Recorder): (res: (bool, Recorder))
    ensures !rec.enabled ==> res == (false, rec)
    ensures rec.enabled && !rec.tlEnabled ==> res.0 && res.1.tlCount == rec.tlCount
    ensures rec.enabled && rec.tlEnabled ==>
              res.1.tlCount + (if res.0 then 1.0 else 0.0) == rec.tlCount + rec.tlIncrement
    ensures rec.enabled && rec.tlEnabled ==> (res.0 <==> rec.tlCount + rec.tlIncrement >= 1.0)
    ensures res.1.writerCreated == (rec.writerCreated || res.0)
    ensures res.1.(tlCount := rec.tlCount, writerCreated := rec.writerCreated) == rec
    ensures res.1.enabled == rec.enabled && res.1.tlEnabled == rec.tlEnabled && res.1.tlIncrement == rec.tlIncrement
    ensures Valid(rec) ==> Valid(res.1)
    ensures Valid(rec) && rec.enabled && rec.tlEnabled ==> 0.0 <= res.1.tlCount < 1.0
  {
    if !rec.enabled then (false, rec)
    else if rec.tlEnabled then
      var count := rec.tlCount + rec.tlIncrement;
      if count < 1.0 then (false, rec.(tlCount := count))
      else (true, rec.(tlCount := count - 1.0, writerCreated := true))
    else (true, rec.(writerCreated := true))
  }

  /** `n` calls of `write` in a row: how many frames were kept, and the recorder afterwards. */
  function WriteFrames(rec: Recorder, n: nat): (res: (nat, Recorder))
    ensures res.0 <= n
    decreases n
  {
    if n == 0 then (0, rec)
    else
      var (kept, next) := Write(rec);
      var (more, last) := WriteFrames(next, n - 1);
      ((if kept then 1 else 0) + more, last)
  }

  /** A freshly built, enabled recorder keeps the first frame it is given. */
  lemma FirstFrameKept(fps: real, factor: real, codec: Option<string>, origExt: string,
                       probe: (string, string) -> bool)
    requires New(fps, factor, true, codec, origExt, probe).Success?
    ensures Write(New(fps, factor, true, codec, origExt, probe).value).0
  {
  }

  /** Without timelapse, an enabled recorder keeps every frame. */
  lemma {:induction false} EveryFrameKept(rec: Recorder, n: nat)
    requires rec.enabled && !rec.tlEnabled
    ensures WriteFrames(rec, n).0 == n
    decreases n
  {
    if n > 0 {
      EveryFrameKept(Write(rec).1, n - 1);
    }
  }

  /** A disabled recorder keeps no frame and is left as it was. */
  lemma {:induction false} DisabledKeepsNothing(rec: Recorder, n: nat)
    requires !rec.enabled
    ensures WriteFrames(rec, n) == (0, rec)
    decreases n
  {
    if n > 0 {
      DisabledKeepsNothing(rec, n - 1);
    }
  }

  /** `n * x`, written as repeated addition so that the counter arithmetic stays linear. */
  function Repeated(n: nat, x: real): real
  {
    if n == 0 then 0.0 else Repeated(n - 1, x) + x
  }

  lemma {:induction false} RepeatedIsProduct(n: nat, x: real)
    ensures Repeated(n, x) == n as real * x
  {
    if n > 0 {
      RepeatedIsProduct(n - 1, x);
      assert n as real * x == (n - 1) as real * x + x;
    }
  }

  /** With timelapse on, kept frames plus what is left in the counter account for every increment added. */
  lemma {:induction false} TimelapseConserves(rec: Recorder, n: nat)
    requires Valid(rec) && rec.enabled && rec.tlEnabled
    ensures WriteFrames(rec, n).0 as real + WriteFrames(rec, n).1.tlCount == rec.tlCount + Repeated(n, rec.tlIncrement)
    ensures var last := WriteFrames(rec, n).1;
            Valid(last) && last.enabled && last.tlEnabled && last.tlIncrement == rec.tlIncrement
    ensures n > 0 ==> WriteFrames(rec, n).1.tlCount < 1.0
    decreases n
  {
    if n > 0 {
      var next := Write(rec).1;
      TimelapseConserves(next, n - 1);
    }
  }

  /**
   * Timelapse keeps the frames where the running total of increments crosses
   * a whole number: of `n >= 1` frames written to a fresh recorder, exactly
   * floor(1 + n / factor) are kept.
   */
  lemma TimelapseFrameCount(rec: Recorder, n: nat)
    requires Valid(rec) && rec.enabled && rec.tlEnabled && rec.tlCount == 1.0
    requires n > 0
    ensures WriteFrames(rec, n).0 == (1.0 + n as real * rec.tlIncrement).Floor
  {
    TimelapseConserves(rec, n);
    RepeatedIsProduct(n, rec.tlIncrement);
    var (kept, last) := WriteFrames(rec, n);
    FloorOf(kept, last.tlCount, 1.0 + n as real * rec.tlIncrement);
  }

  lemma Reciprocal(m: real)
    requires m >= 1.0
    ensures (1.0 / m) * m == 1.0
    ensures 0.0 < 1.0 / m <= 1.0
    ensures m > 1.0 ==> 1.0 / m < 1.0
  {
  }

  lemma FloorOf(whole: int, frac: real, x: real)
    requires x == whole as real + frac && 0.0 <= frac < 1.0
    ensures x.Floor == whole
  {
  }
}
