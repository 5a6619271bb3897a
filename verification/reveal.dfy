/**
 The observable state of one loading-to-reveal run and the events that move
 it: the mount effect, animation-frame callbacks (each carrying its elapsed
 time) and the one-shot reveal timer. Scheduling is abstract: the state
 records whether a frame or the timer is outstanding, and an event that
 nothing scheduled is not delivered, so it changes nothing.
 */
module Reveal {
  import opened Timing

  datatype State = State(
    progress: real,
    flashing: bool,
    revealed: bool,
    framePending: bool,
    timerPending: bool)

  /** The state at first render, before the mount effect runs. */
  const Mounted: State := State(0.0, false, false, false, false)

  /** The mount effect: with reduced motion preferred the run is over at once
      and nothing is scheduled; otherwise the first frame is requested. */
  function Start(reducedMotion: bool): (s: State)
    ensures reducedMotion ==> s.progress == Full && s.revealed && Quiescent(s)
    ensures !reducedMotion ==> s.progress == 0.0 && !s.revealed && !s.flashing && s.framePending
  {
    if reducedMotion then Mounted.(progress := Full, revealed := true)
    else Mounted.(framePending := true)
  }

  datatype Event = AnimationFrame(elapsed: real) | TimeoutFired

  /** Nothing is scheduled: no event can reach the run any more. */
  predicate Quiescent(s: State) {
    !s.framePending && !s.timerPending
  }

  /** Frames carry a time at which the callback is defined. */
  predicate Admissible(durationMs: real, ev: Event) {
    ev.AnimationFrame? ==> Defined(durationMs, ev.elapsed)
  }

  /** One delivered event. A frame applies the callback: it sets progress,
      re-requests a frame outside the terminal branch and, in the terminal
      branch, raises the flash and schedules the timer. The timer reveals and
      clears the flash. */
  function Step(durationMs: real, s: State, ev: Event): (s': State)
    requires Admissible(durationMs, ev)
    ensures Quiescent(s) ==> s' == s
    ensures ev.AnimationFrame? && !s.framePending ==> s' == s
    ensures ev.TimeoutFired? && !s.timerPending ==> s' == s
    ensures ev.AnimationFrame? && s.framePending ==> s'.progress == Tick(durationMs, ev.elapsed).progress
    ensures s.revealed ==> s'.revealed
    ensures ev.AnimationFrame? ==> s'.revealed == s.revealed && (s.timerPending ==> s'.timerPending)
    ensures ev.AnimationFrame? && s.framePending && (0.0 <= durationMs || 0.0 <= ev.elapsed) ==>
      (s'.framePending <==> ev.elapsed < durationMs)
    ensures ev.AnimationFrame? && s.framePending ==>
      && (s'.flashing <==> s.flashing || !s'.framePending)
      && (s'.timerPending <==> s.timerPending || !s'.framePending)
    ensures ev.TimeoutFired? ==> s'.progress == s.progress && !s'.timerPending
    ensures ev.TimeoutFired? ==> s'.framePending == s.framePending
    ensures ev.TimeoutFired? && s.timerPending ==> s'.revealed && !s'.flashing
  {
    match ev
    case AnimationFrame(elapsed) =>
      if !s.framePending then s
      else
        var f := Tick(durationMs, elapsed);
        s.(progress := f.progress,
           framePending := f.requestNext,
           flashing := s.flashing || f.flash,
           timerPending := s.timerPending || f.flash)
    case TimeoutFired =>
      if !s.timerPending then s
      else s.(revealed := true, flashing := false, timerPending := false)
  }

  predicate AllAdmissible(durationMs: real, evs: seq<Event>) {
    forall i :: 0 <= i < |evs| ==> Admissible(durationMs, evs[i])
  }

  /** The state after delivering `evs` in order. */
  function Run(durationMs: real, s: State, evs: seq<Event>): (s': State)
    requires AllAdmissible(durationMs, evs)
    ensures Quiescent(s) ==> s' == s
    ensures s.revealed ==> s'.revealed
    ensures (forall i :: 0 <= i < |evs| ==> evs[i].AnimationFrame?) ==> s'.revealed == s.revealed
    decreases |evs|
  {
    if |evs| == 0 then s
    else Run(durationMs, Step(durationMs, s, evs[0]), evs[1..])
  }

  /** The invariant every reachable state keeps. */
  predicate Consistent(s: State) {
    && 0.0 <= s.progress <= Full
    && (s.flashing <==> s.timerPending)
    && (s.timerPending ==> s.progress == Full && !s.framePending && !s.revealed)
    && (s.revealed ==> s.progress == Full && !s.framePending && !s.flashing)
  }

  /** Frames are timestamped no earlier than the start of the run. */
  predicate FramesAfterStart(evs: seq<Event>) {
    forall i :: 0 <= i < |evs| && evs[i].AnimationFrame? ==> 0.0 <= evs[i].elapsed
  }

  /** Frames arrive in non-decreasing timestamp order. */
  predicate Chronological(evs: seq<Event>) {
    forall i, j :: 0 <= i <= j < |evs| && evs[i].AnimationFrame? && evs[j].AnimationFrame? ==>
      evs[i].elapsed <= evs[j].elapsed
  }

  lemma StepConsistent(durationMs: real, s: State, ev: Event)
    requires Consistent(s)
    requires ev.AnimationFrame? ==> 0.0 <= ev.elapsed
    ensures Consistent(Step(durationMs, s, ev))
  {
  }

  /** Progress stays in [0, 100], the flash lasts exactly while the timer is
      outstanding, and a revealed run is at 100 with nothing scheduled, along
      every run from the mount effect. */
  lemma {:induction false} RunConsistent(durationMs: real, s: State, evs: seq<Event>)
    requires Consistent(s) && FramesAfterStart(evs)
    ensures AllAdmissible(durationMs, evs)
    ensures Consistent(Run(durationMs, s, evs))
    decreases |evs|
  {
    if |evs| > 0 {
      StepConsistent(durationMs, s, evs[0]);
      assert FramesAfterStart(evs[1..]) by {
        forall i | 0 <= i < |evs[1..]| && evs[1..][i].AnimationFrame?
          ensures 0.0 <= evs[1..][i].elapsed
        {
          assert evs[1..][i] == evs[i + 1];
        }
      }
      RunConsistent(durationMs, Step(durationMs, s, evs[0]), evs[1..]);
    }
  }

  /** With reduced motion preferred the run is revealed at 100 at once and
      stays so whatever events arrive, since no frame is ever requested. */
  lemma ReducedMotionIsImmediate(durationMs: real, evs: seq<Event>)
    requires AllAdmissible(durationMs, evs)
    ensures Run(durationMs, Start(true), evs) == Start(true)
    ensures Start(true).progress == Full && Start(true).revealed
    ensures !Start(true).framePending
  {
  }

  /** `s.progress` is no more than what a frame at any time from `t0` on
      would set. */
  predicate BelowFrom(durationMs: real, s: State, t0: real) {
    0.0 <= t0 && s.progress <= Tick(durationMs, t0).progress
  }

  predicate FramesFrom(evs: seq<Event>, t0: real) {
    forall i :: 0 <= i < |evs| && evs[i].AnimationFrame? ==> t0 <= evs[i].elapsed
  }

  lemma FramesFromAdmissible(durationMs: real, evs: seq<Event>, t0: real)
    requires 0.0 <= t0 && FramesFrom(evs, t0)
    ensures AllAdmissible(durationMs, evs)
  {
  }

  /** One step from a state bounded from `t0` yields a state bounded from the
      time of the delivered frame (or still from `t0`), and does not lower
      progress. */
  lemma StepBelow(durationMs: real, s: State, t0: real, ev: Event) returns (t1: real)
    requires BelowFrom(durationMs, s, t0)
    requires ev.AnimationFrame? ==> t0 <= ev.elapsed
    ensures t0 <= t1
    ensures ev.AnimationFrame? ==> t1 <= ev.elapsed
    ensures !ev.AnimationFrame? ==> t1 == t0
    ensures BelowFrom(durationMs, Step(durationMs, s, ev), t1)
    ensures s.progress <= Step(durationMs, s, ev).progress
  {
    t1 := t0;
    if ev.AnimationFrame? && s.framePending {
      TickMonotone(durationMs, t0, ev.elapsed);
      t1 := ev.elapsed;
    }
  }

  /** Along a run with chronological frames, the progress after any prefix
      is at most the progress after the whole run. */
  lemma {:induction false} PrefixBelow(durationMs: real, s: State, t0: real, evs: seq<Event>, k: nat)
    requires BelowFrom(durationMs, s, t0)
    requires FramesFrom(evs, t0) && Chronological(evs)
    requires k <= |evs|
    ensures AllAdmissible(durationMs, evs) && AllAdmissible(durationMs, evs[..k])
    ensures Run(durationMs, s, evs[..k]).progress <= Run(durationMs, s, evs).progress
    decreases |evs|
  {
    FramesFromAdmissible(durationMs, evs, t0);
    FramesFromAdmissible(durationMs, evs[..k], t0);
    if k == 0 {
      assert evs[..k] == [];
      RunAbove(durationMs, s, t0, evs);
    } else {
      var t1 := StepBelow(durationMs, s, t0, evs[0]);
      var s1 := Step(durationMs, s, evs[0]);
      var rest := evs[1..];
      DropFirst(evs, t0, t1);
      RunFirst(durationMs, s, evs);
      RunFirst(durationMs, s, evs[..k]);
      assert evs[..k][0] == evs[0];
      assert evs[..k][1..] == rest[..k - 1];
      PrefixBelow(durationMs, s1, t1, rest, k - 1);
    }
  }

  /** Dropping the first event of a chronological sequence keeps it
      chronological, with frames from the first frame's time on. */
  lemma DropFirst(evs: seq<Event>, t0: real, t1: real)
    requires |evs| > 0 && FramesFrom(evs, t0) && Chronological(evs)
    requires t0 <= t1
    requires evs[0].AnimationFrame? ==> t1 <= evs[0].elapsed
    requires !evs[0].AnimationFrame? ==> t1 == t0
    ensures FramesFrom(evs[1..], t1) && Chronological(evs[1..])
  {
    var rest := evs[1..];
    forall i | 0 <= i < |rest| && rest[i].AnimationFrame?
      ensures t1 <= rest[i].elapsed
    {
      assert rest[i] == evs[i + 1];
    }
    forall i, j | 0 <= i <= j < |rest| && rest[i].AnimationFrame? && rest[j].AnimationFrame?
      ensures rest[i].elapsed <= rest[j].elapsed
    {
      assert rest[i] == evs[i + 1] && rest[j] == evs[j + 1];
    }
  }

  /** A run with frames from `t0` on never ends below where it started. */
  lemma {:induction false} RunAbove(durationMs: real, s: State, t0: real, evs: seq<Event>)
    requires BelowFrom(durationMs, s, t0)
    requires FramesFrom(evs, t0) && Chronological(evs)
    ensures AllAdmissible(durationMs, evs)
    ensures s.progress <= Run(durationMs, s, evs).progress
    decreases |evs|
  {
    FramesFromAdmissible(durationMs, evs, t0);
    if |evs| > 0 {
      var t1 := StepBelow(durationMs, s, t0, evs[0]);
      var rest := evs[1..];
      DropFirst(evs, t0, t1);
      RunAbove(durationMs, Step(durationMs, s, evs[0]), t1, rest);
    }
  }

  /** Progress is non-decreasing over the whole lifetime of a run: for frames
      timestamped after the start in chronological order, the progress after
      `i` events is at most the progress after `j >= i` events. */
  lemma ProgressNeverDecreases(durationMs: real, reducedMotion: bool, evs: seq<Event>, i: nat, j: nat)
    requires FramesAfterStart(evs) && Chronological(evs)
    requires i <= j <= |evs|
    ensures AllAdmissible(durationMs, evs[..i]) && AllAdmissible(durationMs, evs[..j])
    ensures Run(durationMs, Start(reducedMotion), evs[..i]).progress
         <= Run(durationMs, Start(reducedMotion), evs[..j]).progress
  {
    var pre := evs[..j];
    assert pre[..i] == evs[..i];
    assert FramesFrom(pre, 0.0);
    assert Chronological(pre);
    FramesFromAdmissible(durationMs, pre, 0.0);
    FramesFromAdmissible(durationMs, evs[..i], 0.0);
    if !reducedMotion {
      PrefixBelow(durationMs, Start(false), 0.0, pre, i);
    }
  }

  /** Only the timer reveals: a run that was not revealed and ends revealed
      had the timer fire in it while it was pending and before the run had
      been revealed. */
  lemma {:induction false} RevealNeedsTimer(durationMs: real, s: State, evs: seq<Event>)
    requires AllAdmissible(durationMs, evs)
    requires !s.revealed && Run(durationMs, s, evs).revealed
    ensures exists i ::
              && 0 <= i < |evs| && evs[i] == TimeoutFired
              && AllAdmissible(durationMs, evs[..i])
              && Run(durationMs, s, evs[..i]).timerPending
              && !Run(durationMs, s, evs[..i]).revealed
    decreases |evs|
  {
    if evs[0] == TimeoutFired && s.timerPending {
      RunEmpty(durationMs, s, evs);
    } else {
      var rest := evs[1..];
      var s1 := Step(durationMs, s, evs[0]);
      RunFirst(durationMs, s, evs);
      RevealNeedsTimer(durationMs, s1, rest);
      var i :| 0 <= i < |rest| && rest[i] == TimeoutFired
        && AllAdmissible(durationMs, rest[..i])
        && Run(durationMs, s1, rest[..i]).timerPending
        && !Run(durationMs, s1, rest[..i]).revealed;
      RunPrefixFirst(durationMs, s, evs, i);
      assert evs[i + 1] == TimeoutFired;
    }
  }

  /** The empty prefix leaves the state as it is. */
  lemma RunEmpty(durationMs: real, s: State, evs: seq<Event>)
    ensures AllAdmissible(durationMs, evs[..0])
    ensures Run(durationMs, s, evs[..0]) == s
  {
    assert evs[..0] == [];
  }

  /** Delivering the first `i + 1` events is delivering the first event, then
      the next `i`. */
  lemma RunPrefixFirst(durationMs: real, s: State, evs: seq<Event>, i: nat)
    requires AllAdmissible(durationMs, evs) && i < |evs| - 1
    ensures AllAdmissible(durationMs, evs[..i + 1]) && AllAdmissible(durationMs, evs[1..][..i])
    ensures Run(durationMs, s, evs[..i + 1])
         == Run(durationMs, Step(durationMs, s, evs[0]), evs[1..][..i])
  {
    var pre := evs[..i + 1];
    assert forall j :: 0 <= j < |pre| ==> pre[j] == evs[j];
    assert pre[1..] == evs[1..][..i];
    RunFirst(durationMs, s, pre);
  }

  /** Delivering a non-empty sequence is delivering its first event, then the
      rest. */
  lemma RunFirst(durationMs: real, s: State, evs: seq<Event>)
    requires AllAdmissible(durationMs, evs) && |evs| > 0
    ensures AllAdmissible(durationMs, evs[1..])
    ensures Run(durationMs, s, evs) == Run(durationMs, Step(durationMs, s, evs[0]), evs[1..])
  {
    assert forall i :: 0 <= i < |evs[1..]| ==> evs[1..][i] == evs[i + 1];
  }

  /**
   The terminal frame: from a consistent, unrevealed run waiting on a frame,
   a frame at or after the nominal duration sets progress to 100, raises the
   flash and requests no further frame; the run is not yet revealed, later
   frames change nothing, and the timer then reveals and clears the flash.
   */
  lemma TerminalFrame(durationMs: real, s: State, elapsed: real, later: real)
    requires Consistent(s) && s.framePending
    requires 0.0 <= durationMs <= elapsed
    requires Defined(durationMs, later)
    ensures Step(durationMs, s, AnimationFrame(elapsed)) == State(Full, true, false, false, true)
    ensures Step(durationMs, Step(durationMs, s, AnimationFrame(elapsed)), AnimationFrame(later))
         == Step(durationMs, s, AnimationFrame(elapsed))
    ensures Step(durationMs, Step(durationMs, s, AnimationFrame(elapsed)), TimeoutFired)
         == State(Full, false, true, false, false)
  {
    var s1 := Step(durationMs, s, AnimationFrame(elapsed));
    assert s1 == State(Full, true, false, false, true);
    FrameWithoutRequest(durationMs, s1, later);
  }

  lemma FrameWithoutRequest(durationMs: real, s: State, elapsed: real)
    requires !s.framePending && Defined(durationMs, elapsed)
    ensures Step(durationMs, s, AnimationFrame(elapsed)) == s
  {
  }

  /** The default 2500 ms run, sampled at the start, mid-ramp, end of ramp,
      mid-finish and end, then the timer: the run is revealed at 100 with the
      flash cleared and nothing left scheduled. */
  lemma DefaultRunReveals()
    ensures var evs := [AnimationFrame(0.0), AnimationFrame(800.0), AnimationFrame(1600.0),
                        AnimationFrame(2325.0), AnimationFrame(2500.0), TimeoutFired];
      && AllAdmissible(2500.0, evs)
      && Run(2500.0, Start(false), evs[..4]).progress == 96.0
      && Run(2500.0, Start(false), evs[..5]) == State(Full, true, false, false, true)
      && Run(2500.0, Start(false), evs) == State(Full, false, true, false, false)
  {
    var evs := [AnimationFrame(0.0), AnimationFrame(800.0), AnimationFrame(1600.0),
                AnimationFrame(2325.0), AnimationFrame(2500.0), TimeoutFired];
    var d := 2500.0;
    DefaultRunSamples();
    RunEmpty(d, Start(false), evs);
    assert Run(d, Start(false), evs[..0]) == State(0.0, false, false, true, false);
    assert evs[..1] == evs[..0] + [evs[0]];
    RunSnoc(d, Start(false), evs[..0], evs[0]);
    assert Run(d, Start(false), evs[..1]) == State(0.0, false, false, true, false);
    assert evs[..2] == evs[..1] + [evs[1]];
    RunSnoc(d, Start(false), evs[..1], evs[1]);
    assert Run(d, Start(false), evs[..2]) == State(46.0, false, false, true, false);
    assert evs[..3] == evs[..2] + [evs[2]];
    RunSnoc(d, Start(false), evs[..2], evs[2]);
    assert Run(d, Start(false), evs[..3]) == State(Target1, false, false, true, false);
    assert evs[..4] == evs[..3] + [evs[3]];
    RunSnoc(d, Start(false), evs[..3], evs[3]);
    assert Run(d, Start(false), evs[..4]) == State(96.0, false, false, true, false);
    assert evs[..5] == evs[..4] + [evs[4]];
    RunSnoc(d, Start(false), evs[..4], evs[4]);
    assert Run(d, Start(false), evs[..5]) == State(Full, true, false, false, true);
    assert evs == evs[..5] + [evs[5]];
    RunSnoc(d, Start(false), evs[..5], evs[5]);
  }

  /** Delivering one more event after a sequence is one more step. */
  lemma {:induction false} RunSnoc(durationMs: real, s: State, evs: seq<Event>, ev: Event)
    requires AllAdmissible(durationMs, evs) && Admissible(durationMs, ev)
    ensures AllAdmissible(durationMs, evs + [ev])
    ensures Run(durationMs, s, evs + [ev]) == Step(durationMs, Run(durationMs, s, evs), ev)
    decreases |evs|
  {
    var all := evs + [ev];
    assert forall j :: 0 <= j < |all| ==> all[j] == if j < |evs| then evs[j] else ev;
    RunFirst(durationMs, s, all);
    if |evs| == 0 {
      assert all[1..] == [];
    } else {
      assert all[1..] == evs[1..] + [ev];
      RunFirst(durationMs, s, evs);
      RunSnoc(durationMs, Step(durationMs, s, evs[0]), evs[1..], ev);
    }
  }
}
