/**
 The progress-timing rule of the loading-to-reveal splash, as a pure function
 of the elapsed time of one run and its nominal duration (both in
 milliseconds, over the reals).

 A run of duration `d` is split into three consecutive windows: a ramp of
 `0.64 d` during which progress climbs linearly to 92, a hold of `0.22 d`
 during which it stays at 92, and a finish of `0.14 d` during which it climbs
 linearly from 92 to 100. From then on the run is done: progress is 100, the
 flash starts and no further frame is requested.
 */
module Timing {

  /** Progress the ramp climbs to before the pause. */
  const Target1: real := 92.0

  /** Progress of a finished run. */
  const Full: real := 100.0

  /** The smaller of two values, as `Math.min` returns it. */
  function Min(a: real, b: real): (r: real)
    ensures r <= a && r <= b
    ensures r == a || r == b
  {
    if a <= b then a else b
  }

  /** The lengths of the three windows of one run. */
  datatype Schedule = Schedule(ramp: real, hold: real, finish: real) {

    /** Elapsed time at which the finish window opens. */
    function FinishStart(): real {
      ramp + hold
    }

    /** Elapsed time from which the run is done. */
    function End(): real {
      ramp + hold + finish
    }
  }

  /** The windows of a run of nominal duration `durationMs`. */
  function ScheduleFor(durationMs: real): (s: Schedule)
    ensures s.End() == durationMs
    ensures durationMs > 0.0 ==> 0.0 < s.ramp < s.FinishStart() < s.End()
    ensures durationMs <= 0.0 ==> s.End() <= s.FinishStart() <= s.ramp <= 0.0
  {
    Schedule(durationMs * 0.64, durationMs * 0.22, durationMs * 0.14)
  }

  /** The four branches of the per-frame callback. */
  datatype Phase = Ramp | Hold | Finish | Done

  /** The branch a frame at `elapsed` takes. */
  function PhaseAt(durationMs: real, elapsed: real): (p: Phase)
    ensures 0.0 <= durationMs || 0.0 <= elapsed ==> (p == Done <==> durationMs <= elapsed)
    ensures durationMs <= 0.0 && 0.0 <= elapsed ==> p == Done
  {
    var s := ScheduleFor(durationMs);
    if elapsed < s.ramp then Ramp
    else if elapsed < s.FinishStart() then Hold
    else if elapsed < s.End() then Finish
    else Done
  }

  /**
   The callback divides by the ramp length in the ramp branch and by the
   finish length in the finish branch. The only way to reach a zero divisor is
   a zero duration together with a negative elapsed time, which a frame
   timestamped no earlier than the run's start never produces.
   */
  predicate Defined(durationMs: real, elapsed: real) {
    0.0 <= elapsed || durationMs != 0.0
  }

  /** What one frame callback does: the progress it sets, whether it asks
      for another frame, and whether it raises the flash (which also
      schedules the reveal timer). */
  datatype Frame = Frame(progress: real, requestNext: bool, flash: bool)

  /** The per-frame callback at `elapsed` milliseconds into a run. */
  function Tick(durationMs: real, elapsed: real): (f: Frame)
    requires Defined(durationMs, elapsed)
    ensures 0.0 <= durationMs || 0.0 <= elapsed ==> (f.requestNext <==> elapsed < durationMs)
    ensures f.flash <==> !f.requestNext
    ensures 0.0 <= durationMs <= elapsed ==> f.progress == Full
    ensures 0.0 <= elapsed ==> 0.0 <= f.progress <= Full
    ensures 0.0 <= elapsed && elapsed < durationMs ==> f.progress < Full
  {
    var s := ScheduleFor(durationMs);
    match PhaseAt(durationMs, elapsed)
    case Ramp =>
      Frame(Min(Target1, (elapsed / s.ramp) * Target1), true, false)
    case Hold =>
      Frame(Target1, true, false)
    case Finish =>
      FinishFraction(s, elapsed);
      var t := (elapsed - s.ramp - s.hold) / s.finish;
      Frame(Min(Full, Target1 + t * (Full - Target1)), true, false)
    case Done =>
      Frame(Full, false, true)
  }

  /** In the finish window the normalised time lies in [0, 1). */
  lemma FinishFraction(s: Schedule, elapsed: real)
    requires s.FinishStart() <= elapsed < s.End()
    ensures s.finish > 0.0
    ensures 0.0 <= (elapsed - s.ramp - s.hold) / s.finish < 1.0
  {
    var num := elapsed - s.ramp - s.hold;
    assert 0.0 <= num < s.finish;
    DivBelowOne(num, s.finish);
  }

  lemma DivBelowOne(num: real, den: real)
    requires 0.0 <= num < den
    ensures 0.0 <= num / den < 1.0
  {
    assert (num / den) * den == num;
  }

  /**
   In the ramp window progress is the elapsed fraction of the ramp times 92,
   strictly below 92, so the cap of 92 never binds.
   */
  lemma RampWindow(durationMs: real, elapsed: real)
    requires 0.0 <= elapsed < ScheduleFor(durationMs).ramp
    ensures PhaseAt(durationMs, elapsed) == Ramp
    ensures Tick(durationMs, elapsed).progress == (elapsed / (durationMs * 0.64)) * Target1
    ensures 0.0 <= Tick(durationMs, elapsed).progress < Target1
  {
    var ramp := durationMs * 0.64;
    DivBelowOne(elapsed, ramp);
  }

  /** In the hold window progress is exactly 92. */
  lemma HoldWindow(durationMs: real, elapsed: real)
    requires ScheduleFor(durationMs).ramp <= elapsed < ScheduleFor(durationMs).FinishStart()
    ensures PhaseAt(durationMs, elapsed) == Hold
    ensures Tick(durationMs, elapsed) == Frame(Target1, true, false)
  {
  }

  /**
   In the finish window `t = (elapsed - ramp - hold) / finish` lies in [0, 1)
   and progress is `92 + 8 t`, which lies in [92, 100), so the cap of 100
   never binds.
   */
  lemma FinishWindow(durationMs: real, elapsed: real)
    requires ScheduleFor(durationMs).FinishStart() <= elapsed < durationMs
    ensures PhaseAt(durationMs, elapsed) == Finish
    ensures var t := (elapsed - durationMs * 0.86) / (durationMs * 0.14);
      && 0.0 <= t < 1.0
      && Tick(durationMs, elapsed).progress == Target1 + t * 8.0
    ensures Target1 <= Tick(durationMs, elapsed).progress < Full
  {
    var s := ScheduleFor(durationMs);
    FinishFraction(s, elapsed);
    assert elapsed - s.ramp - s.hold == elapsed - durationMs * 0.86;
  }

  /** Every division the callback performs has a positive divisor when the
      frame is no earlier than the start of the run. */
  lemma DivisionsGuarded(durationMs: real, elapsed: real)
    requires 0.0 <= elapsed
    ensures PhaseAt(durationMs, elapsed) == Ramp ==> ScheduleFor(durationMs).ramp > 0.0
    ensures PhaseAt(durationMs, elapsed) == Finish ==> ScheduleFor(durationMs).finish > 0.0
    ensures durationMs <= 0.0 ==> Tick(durationMs, elapsed) == Frame(Full, false, true)
  {
  }

  /** A frame requests its successor exactly in the three non-terminal
      branches, and raises the flash exactly in the terminal one. */
  lemma FrameRequestedUntilDone(durationMs: real, elapsed: real)
    requires Defined(durationMs, elapsed)
    ensures Tick(durationMs, elapsed).requestNext <==> PhaseAt(durationMs, elapsed) != Done
    ensures Tick(durationMs, elapsed).flash <==> PhaseAt(durationMs, elapsed) == Done
  {
  }

  /** Progress never steps backwards as elapsed time grows, across all four
      branches and their boundaries. */
  lemma {:induction false} TickMonotone(durationMs: real, e1: real, e2: real)
    requires Defined(durationMs, e1) && e1 <= e2
    ensures Defined(durationMs, e2)
    ensures Tick(durationMs, e1).progress <= Tick(durationMs, e2).progress
  {
    var s := ScheduleFor(durationMs);
    var p1 := Tick(durationMs, e1).progress;
    var p2 := Tick(durationMs, e2).progress;
    if e1 < s.ramp {
      if durationMs > 0.0 {
        if e2 < s.ramp {
          RampLinear(s.ramp, e1, e2);
        } else {
          assert p1 <= Target1;
          if e2 >= s.FinishStart() && e2 < s.End() {
            FinishFraction(s, e2);
          }
        }
      } else {
        // A non-positive ramp with `e1` before it: `d < 0`, the ratio is at
        // least one and the cap of 92 binds; later frames are at 92 or done.
        assert durationMs < 0.0;
        RampCapBinds(s.ramp, e1);
        if e2 < s.ramp {
          RampCapBinds(s.ramp, e2);
        }
      }
    } else if e1 < s.FinishStart() {
      if e2 >= s.FinishStart() && e2 < s.End() {
        FinishFraction(s, e2);
      }
    } else if e1 < s.End() {
      if e2 < s.End() {
        FinishFraction(s, e1);
        FinishFraction(s, e2);
        FinishLinear(s.finish, e1 - s.ramp - s.hold, e2 - s.ramp - s.hold);
      }
    }
  }

  lemma RampLinear(ramp: real, e1: real, e2: real)
    requires 0.0 < ramp && e1 <= e2
    ensures (e1 / ramp) * Target1 <= (e2 / ramp) * Target1
  {
    assert e1 / ramp <= e2 / ramp;
  }

  lemma RampCapBinds(ramp: real, e: real)
    requires ramp < 0.0 && e < ramp
    ensures Min(Target1, (e / ramp) * Target1) == Target1
  {
    assert (e / ramp) * ramp == e;
    assert e / ramp > 1.0;
  }

  lemma FinishLinear(finish: real, n1: real, n2: real)
    requires 0.0 < finish && n1 <= n2
    ensures Target1 + (n1 / finish) * (Full - Target1) <= Target1 + (n2 / finish) * (Full - Target1)
  {
    assert n1 / finish <= n2 / finish;
  }

  /**
   A frame timestamped before the start of a run of positive duration sets a
   negative progress: the callback does not clamp from below.
   */
  lemma NegativeElapsedUndershoots(durationMs: real, elapsed: real)
    requires 0.0 < durationMs && elapsed < 0.0
    ensures Tick(durationMs, elapsed).progress < 0.0
  {
    var ramp := durationMs * 0.64;
    assert elapsed / ramp < 0.0;
  }

  /** Frames of the default 2500 ms run at the window boundaries and
      midpoints. */
  lemma DefaultRunSamples()
    ensures Tick(2500.0, 0.0) == Frame(0.0, true, false)
    ensures Tick(2500.0, 800.0).progress == 46.0
    ensures Tick(2500.0, 1600.0) == Frame(Target1, true, false)
    ensures Tick(2500.0, 2325.0).progress == 96.0
    ensures Tick(2500.0, 2500.0) == Frame(Full, false, true)
  {
  }
}
