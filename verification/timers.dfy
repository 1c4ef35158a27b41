/**
 * The square-wave timer registry of `utils/timers.py`.
 *
 * A `Toggle` is one two-level oscillator: it holds half of its period, the
 * deadline after which it next flips, its level, and the one-shot rising and
 * falling edge flags produced by the most recent update. A `Registry` maps a
 * period to its oscillator, creates oscillators lazily on the first query for
 * a period, and advances every existing oscillator whenever it is told the
 * time. Time is modelled as `real`.
 */
module Timers {
  import opened Wrappers

  /** One oscillator (`_Single_Square_Wave_Timer`). */
  datatype Toggle = Toggle(half: real, deadline: real, high: bool, rising: bool, falling: bool)

  /**
   * `update_timer`: the level flips at most once, and only when `t` strictly
   * passes the deadline; the deadline then moves half a period on from its
   * previous value, however far `t` overshot it.
   */
  function Step(tg: Toggle, t: real): (r: Toggle)
    ensures r.half == tg.half
    ensures r.high != tg.high <==> t > tg.deadline
    ensures r.rising <==> !tg.high && r.high
    ensures r.falling <==> tg.high && !r.high
    ensures !(r.rising && r.falling)
    ensures r.deadline == if t > tg.deadline then tg.deadline + tg.half else tg.deadline
  {
    if t > tg.deadline then
      var level := !tg.high;
      Toggle(tg.half, tg.deadline + tg.half, level, level, !level)
    else
      tg.(rising := false, falling := false)
  }

  /** The state `__init__` sets up before its own first `update_timer` compares against the deadline. */
  function Seed(period: real, t: real): Toggle
  {
    Toggle(period / 2.0, t + period / 2.0, false, false, false)
  }

  /**
   * `__init__`: seed the deadline half a period after the creation time, then
   * run one update at that same time. Because the period is positive, that
   * update never flips: a new oscillator starts low, with no edge, and is not
   * advanced retroactively.
   */
  function Create(period: real, t: real): (r: Toggle)
    requires period > 0.0
    ensures r.half == period / 2.0 && r.half > 0.0
    ensures r.deadline == t + r.half
    ensures !r.high && !r.rising && !r.falling
  {
    Step(Seed(period, t), t)
  }

  /** The oscillator after the updates `ts`, applied in order. */
  function Run(tg: Toggle, ts: seq<real>): (r: Toggle)
    ensures r.half == tg.half
    decreases |ts|
  {
    if |ts| == 0 then tg else Run(Step(tg, ts[0]), ts[1..])
  }

  /** How many of the updates `ts` flip the level; never more than one per update. */
  function Flips(tg: Toggle, ts: seq<real>): (n: nat)
    ensures n <= |ts|
    decreases |ts|
  {
    if |ts| == 0 then 0
    else (if ts[0] > tg.deadline then 1 else 0) + Flips(Step(tg, ts[0]), ts[1..])
  }

  /**
   * The oscillator has flipped `k` times since it was started at `start`: its
   * deadline is the (k+1)-th half-period boundary after `start`, and it is high
   * exactly after an odd number of flips.
   */
  ghost predicate OnSchedule(tg: Toggle, start: real, k: nat)
  {
    && tg.half > 0.0
    && tg.deadline == start + (k + 1) as real * tg.half
    && tg.high == (k % 2 == 1)
  }

  lemma StepOnSchedule(tg: Toggle, start: real, k: nat, t: real)
    requires OnSchedule(tg, start, k)
    ensures OnSchedule(Step(tg, t), start, if t > tg.deadline then k + 1 else k)
  {
  }

  /**
   * Phase stability: whatever the update times, an oscillator stays on the
   * grid of half-period boundaries it started on. Its deadline is never
   * re-anchored to an update time, and its level is the parity of its flips.
   */
  lemma {:induction false} RunOnSchedule(tg: Toggle, start: real, k: nat, ts: seq<real>)
    requires OnSchedule(tg, start, k)
    ensures OnSchedule(Run(tg, ts), start, k + Flips(tg, ts))
    decreases |ts|
  {
    if |ts| > 0 {
      var k' := if ts[0] > tg.deadline then k + 1 else k;
      StepOnSchedule(tg, start, k, ts[0]);
      RunOnSchedule(Step(tg, ts[0]), start, k', ts[1..]);
    }
  }

  /** A created oscillator, updated with any times, sits on the grid that starts at its creation time. */
  lemma CreatedOnSchedule(period: real, start: real, ts: seq<real>)
    requires period > 0.0
    ensures OnSchedule(Run(Create(period, start), ts), start, Flips(Create(period, start), ts))
  {
    RunOnSchedule(Create(period, start), start, 0, ts);
  }

  /** The update times `ts` never go backwards from `t0` and never leave a gap wider than `gap`. */
  ghost predicate Steady(t0: real, ts: seq<real>, gap: real)
  {
    && (|ts| > 0 ==> t0 <= ts[0] <= t0 + gap)
    && forall i :: 0 < i < |ts| ==> ts[i - 1] <= ts[i] <= ts[i - 1] + gap
  }

  /** The most recent of the times `t0` followed by `ts`. */
  function Latest(t0: real, ts: seq<real>): real
  {
    if |ts| == 0 then t0 else ts[|ts| - 1]
  }

  /** The oscillator is in step at time `t`: `t` lies within the half-period that ends at its deadline. */
  ghost predicate InStep(tg: Toggle, t: real)
  {
    tg.deadline - tg.half <= t <= tg.deadline
  }

  lemma SteadyTail(t0: real, ts: seq<real>, gap: real)
    requires |ts| > 0 && Steady(t0, ts, gap)
    ensures Steady(ts[0], ts[1..], gap)
    ensures t0 <= ts[0] <= t0 + gap
    ensures Latest(ts[0], ts[1..]) == Latest(t0, ts)
  {
  }

  /**
   * Catch-up: when updates never go backwards and come at least every
   * half-period, an oscillator that is in step stays in step, so it never
   * lags behind the deadlines that have passed.
   */
  lemma {:induction false} RunInStep(tg: Toggle, t0: real, ts: seq<real>)
    requires tg.half > 0.0
    requires InStep(tg, t0)
    requires Steady(t0, ts, tg.half)
    ensures InStep(Run(tg, ts), Latest(t0, ts))
    decreases |ts|
  {
    if |ts| > 0 {
      SteadyTail(t0, ts, tg.half);
      RunInStep(Step(tg, ts[0]), ts[0], ts[1..]);
    }
  }

  /**
   * An oscillator created at `start` and updated at least every half-period
   * follows the ideal square wave: after `k` flips the latest time lies in the
   * k-th half-period after `start`, and the level is high exactly when `k` is
   * odd.
   */
  lemma FollowsIdealWave(period: real, start: real, ts: seq<real>)
    requires period > 0.0
    requires Steady(start, ts, period / 2.0)
    ensures var k := Flips(Create(period, start), ts);
            && InHalfPeriod(start, period / 2.0, k, Latest(start, ts))
            && (Run(Create(period, start), ts).high <==> k % 2 == 1)
  {
    var c := Create(period, start);
    var k := Flips(c, ts);
    var tg := Run(c, ts);
    var t := Latest(start, ts);
    assert OnSchedule(tg, start, k) by {
      RunOnSchedule(c, start, 0, ts);
    }
    assert InStep(tg, t) by {
      RunInStep(c, start, ts);
    }
    WithinHalfPeriod(start, period / 2.0, k, tg.deadline, t);
  }

  /** `t` lies in the `k`-th half-period of length `h` after `start` (counting from 0). */
  ghost predicate InHalfPeriod(start: real, h: real, k: nat, t: real)
  {
    start + k as real * h <= t <= start + (k + 1) as real * h
  }

  lemma WithinHalfPeriod(start: real, h: real, k: nat, deadline: real, t: real)
    requires deadline == start + (k + 1) as real * h
    requires deadline - h <= t <= deadline
    ensures InHalfPeriod(start, h, k, t)
  {
    assert (k + 1) as real * h == k as real * h + h;
  }

  /**
   * Missed toggles are caught up one per update: a period-10 oscillator
   * created at 0 and next updated at 12 flips once and is due again at 10,
   * not at 17; a second update at 12 then flips it back.
   */
  lemma OvershootCatchesUpOnePerUpdate()
    ensures Run(Create(10.0, 0.0), [12.0]) == Toggle(5.0, 10.0, true, true, false)
    ensures Run(Create(10.0, 0.0), [12.0, 12.0]) == Toggle(5.0, 15.0, false, false, true)
  {
    assert [12.0, 12.0][1..] == [12.0];
  }

  /** Which of an oscillator's readings a registry query asks for. */
  datatype Query = High | Rising | Falling

  /** `is_high`, `is_rising`, `is_falling` of one oscillator. */
  function Read(tg: Toggle, q: Query): (r: bool)
    ensures q == High ==> r == tg.high
    ensures q == Rising ==> r == tg.rising
    ensures q == Falling ==> r == tg.falling
  {
    match q
    case High => tg.high
    case Rising => tg.rising
    case Falling => tg.falling
  }

  /**
   * What the queries answer after an update at `t`, in terms of the state
   * before it: rising exactly when a low oscillator passes its deadline,
   * falling exactly when a high one does, and the level is the old one,
   * inverted when the deadline was passed. So an oscillator just updated is
   * never reported rising while low or falling while high.
   */
  lemma ReadAfterStep(tg: Toggle, t: real)
    ensures Read(Step(tg, t), Rising) <==> !tg.high && t > tg.deadline
    ensures Read(Step(tg, t), Falling) <==> tg.high && t > tg.deadline
    ensures Read(Step(tg, t), High) <==> (tg.high != (t > tg.deadline))
    ensures Read(Step(tg, t), Rising) ==> Read(Step(tg, t), High)
    ensures Read(Step(tg, t), Falling) ==> !Read(Step(tg, t), High)
  {
  }

  /** `Square_Wave_Timer`: the last time it was told (`None` before the first update) and the oscillators by period. */
  datatype Registry = Registry(now: Option<real>, timers: map<real, Toggle>)

  /** A new registry: no time yet, no oscillators. */
  function NewRegistry(): (r: Registry)
    ensures r.now.None? && forall p :: p !in r.timers
    ensures Valid(r)
  {
    Registry(None, map[])
  }

  /**
   * `update`: record the time and update every existing oscillator with it;
   * no oscillator is added or removed.
   */
  function Update(reg: Registry, t: real): (r: Registry)
    ensures r.now == Some(t)
    ensures r.timers.Keys == reg.timers.Keys
    ensures forall p :: p in r.timers ==> r.timers[p] == Step(reg.timers[p], t)
  {
    Registry(Some(t), map p | p in reg.timers :: Step(reg.timers[p], t))
  }

  /**
   * `_create_missing_timer`: an oscillator for `period` is created at the
   * registry's time if there is none yet; every other entry, and the time,
   * is left alone. Creating one before the first update fails in the source,
   * which the second precondition rules out.
   */
  function CreateMissing(reg: Registry, period: real): (r: Registry)
    requires period > 0.0
    requires period in reg.timers || reg.now.Some?
    ensures r.now == reg.now
    ensures r.timers.Keys == reg.timers.Keys + {period}
    ensures forall p :: p in reg.timers ==> r.timers[p] == reg.timers[p]
    ensures period !in reg.timers ==> r.timers[period] == Create(period, reg.now.value)
  {
    if period in reg.timers then reg
    else Registry(reg.now, reg.timers[period := Create(period, reg.now.value)])
  }

  /**
   * `is_high` / `is_rising` / `is_falling` of the registry: make sure the
   * oscillator exists, then read it. Returns the answer and the registry
   * after the possible creation.
   */
  function Ask(reg: Registry, period: real, q: Query): (res: (bool, Registry))
    requires period > 0.0
    requires period in reg.timers || reg.now.Some?
    ensures res.1 == CreateMissing(reg, period)
    ensures period in res.1.timers && res.0 == Read(res.1.timers[period], q)
    ensures period !in reg.timers ==> !res.0
  {
    var r := CreateMissing(reg, period);
    (Read(r.timers[period], q), r)
  }

  /**
   * Repeated queries without an update in between: once the first query has
   * created the entry, every later query for that period, of any kind,
   * leaves the registry unchanged, and a repeat of the same query gives the
   * same answer.
   */
  lemma AskIdempotent(reg: Registry, period: real, q: Query, q': Query)
    requires period > 0.0
    requires period in reg.timers || reg.now.Some?
    ensures var (a, r1) := Ask(reg, period, q);
            && Ask(r1, period, q') == (Read(r1.timers[period], q'), r1)
            && Ask(r1, period, q) == (a, r1)
  {
  }

  /** The registry invariant: time is set once anything was created, and each oscillator has half its key as half-period. */
  ghost predicate Valid(reg: Registry)
  {
    && (reg.now.None? ==> reg.timers == map[])
    && forall p :: p in reg.timers ==> p > 0.0 && reg.timers[p].half == p / 2.0
  }

  lemma UpdateValid(reg: Registry, t: real)
    requires Valid(reg)
    ensures Valid(Update(reg, t))
  {
  }

  lemma AskValid(reg: Registry, period: real, q: Query)
    requires period > 0.0
    requires period in reg.timers || reg.now.Some?
    requires Valid(reg)
    ensures Valid(Ask(reg, period, q).1)
  {
  }

  /** One call on the registry, as the render loop makes them. */
  datatype Event = Tick(t: real) | Look(period: real, q: Query)

  /** A call the source can make on `reg` without failing. */
  predicate Allowed(reg: Registry, e: Event)
  {
    e.Look? ==> e.period > 0.0 && (e.period in reg.timers || reg.now.Some?)
  }

  function Apply(reg: Registry, e: Event): Registry
    requires Allowed(reg, e)
  {
    match e
    case Tick(t) => Update(reg, t)
    case Look(p, q) => Ask(reg, p, q).1
  }

  /** Every call of `evs`, made in order from `reg`, is allowed. */
  predicate Runnable(reg: Registry, evs: seq<Event>)
    decreases |evs|
  {
    |evs| == 0 || (Allowed(reg, evs[0]) && Runnable(Apply(reg, evs[0]), evs[1..]))
  }

  function Replay(reg: Registry, evs: seq<Event>): Registry
    requires Runnable(reg, evs)
    decreases |evs|
  {
    if |evs| == 0 then reg else Replay(Apply(reg, evs[0]), evs[1..])
  }

  /** The times of the updates among `evs`, in order. */
  function Ticks(evs: seq<Event>): seq<real>
    decreases |evs|
  {
    if |evs| == 0 then []
    else (if evs[0].Tick? then [evs[0].t] else []) + Ticks(evs[1..])
  }

  /**
   * Independence: an oscillator in the registry evolves exactly as a lone
   * oscillator updated with the registry's ticks. Creating or querying other
   * periods, and updating them, never changes its level, edges or deadline.
   */
  lemma {:induction false} ReplayIsRun(reg: Registry, evs: seq<Event>, period: real)
    requires Runnable(reg, evs)
    requires period in reg.timers
    ensures period in Replay(reg, evs).timers
    ensures Replay(reg, evs).timers[period] == Run(reg.timers[period], Ticks(evs))
    decreases |evs|
  {
    if |evs| > 0 {
      var next := Apply(reg, evs[0]);
      ReplayIsRun(next, evs[1..], period);
      if evs[0].Tick? {
        assert Ticks(evs) == [evs[0].t] + Ticks(evs[1..]);
        assert ([evs[0].t] + Ticks(evs[1..]))[1..] == Ticks(evs[1..]);
      } else {
        assert Ticks(evs) == Ticks(evs[1..]);
      }
    }
  }
}
