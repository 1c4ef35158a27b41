/**
 * The 10-second demo at the bottom of `utils/timers.py`: a fresh registry is
 * updated at t = 0, 1, ..., 16 and, after each update, asked whether the
 * period-10 oscillator is rising, falling and high.
 */
module TimersDemo {
  import opened Wrappers
  import opened Timers

  /** What the demo reports for one second. */
  datatype Reading = Reading(rising: bool, falling: bool, high: bool)

  /**
   * The period-10 oscillator after the demo's update and queries at second
   * `i`: created at 0 with deadline 5, it flips at 6 (due again at 10), at
   * 11 (due at 15) and at 16 (due at 20).
   */
  function Expected(i: int): Toggle
  {
    if i <= 5 then Toggle(5.0, 5.0, false, false, false)
    else if i == 6 then Toggle(5.0, 10.0, true, true, false)
    else if i <= 10 then Toggle(5.0, 10.0, true, false, false)
    else if i == 11 then Toggle(5.0, 15.0, false, false, true)
    else if i <= 15 then Toggle(5.0, 15.0, false, false, false)
    else Toggle(5.0, 20.0, true, true, false)
  }

  /**
   * Runs the demo loop. The oscillator rises only at 6 and 16, falls only at
   * 11, is high for 6..10 and at 16, and low for 0..5 and 11..15.
   */
  method Demo() returns (readings: seq<Reading>)
    ensures |readings| == 17
    ensures forall i :: 0 <= i < 17 ==> (readings[i].rising <==> i == 6 || i == 16)
    ensures forall i :: 0 <= i < 17 ==> (readings[i].falling <==> i == 11)
    ensures forall i :: 0 <= i < 17 ==> (readings[i].high <==> 6 <= i <= 10 || i == 16)
  {
    var reg := NewRegistry();
    readings := [];
    var i := 0;
    while i < 17
      invariant 0 <= i <= 17
      invariant |readings| == i
      invariant i == 0 ==> reg == NewRegistry()
      invariant i > 0 ==> reg == Registry(Some((i - 1) as real), map[10.0 := Expected(i - 1)])
      invariant forall j :: 0 <= j < i ==> readings[j] == Reading(Expected(j).rising, Expected(j).falling, Expected(j).high)
    {
      reg := Update(reg, i as real);
      assert reg.timers == if i == 0 then map[] else map[10.0 := Step(Expected(i - 1), i as real)];
      var (rising, r1) := Ask(reg, 10.0, Rising);
      assert r1.timers[10.0] == Expected(i);
      var (falling, r2) := Ask(r1, 10.0, Falling);
      var (high, r3) := Ask(r2, 10.0, High);
      reg := r3;
      readings := readings + [Reading(rising, falling, high)];
      i := i + 1;
    }
  }
}
