/**
 What the splash shows for a state: while the run is not revealed, the
 progress bar with its whole-percent label (the same figure is the bar's
 announced current value); once revealed, the content, under the flash
 overlay while the flash lasts.
 */
module Display {
  import opened Timing
  import opened Reveal

  /** Progress rounded down to a whole percent. */
  function Percent(progress: real): (n: int)
    ensures n as real <= progress < n as real + 1.0
  {
    progress.Floor
  }

  /** The shown figure of a progress in [0, 100] is a whole percent in
      0..100, is 100 exactly at full progress, and grows with progress. */
  lemma PercentInRange(p: real, q: real)
    requires 0.0 <= p <= q <= Full
    ensures 0 <= Percent(p) <= Percent(q) <= 100
    ensures Percent(q) == 100 <==> q == Full
  {
  }

  datatype Screen = Loading(percent: int) | Content(flash: bool)

  function View(s: State): (v: Screen)
    ensures v.Loading? <==> !s.revealed
    ensures v.Loading? ==> v.percent as real <= s.progress < v.percent as real + 1.0
    ensures v.Content? ==> (v.flash <==> s.flashing)
  {
    if s.revealed then Content(s.flashing) else Loading(Percent(s.progress))
  }

  /** Every state reached from the mount effect shows either a percentage in
      0..100 or the content. The content never shows the flash overlay: the
      timer that reveals it clears the flash in the same update, and under
      reduced motion the flash is never raised. */
  lemma {:induction false} ViewOfRun(durationMs: real, reducedMotion: bool, evs: seq<Event>)
    requires FramesAfterStart(evs)
    ensures AllAdmissible(durationMs, evs)
    ensures var v := View(Run(durationMs, Start(reducedMotion), evs));
      && (v.Loading? ==> 0 <= v.percent <= 100)
      && (v.Content? ==> !v.flash)
    ensures reducedMotion ==> View(Run(durationMs, Start(reducedMotion), evs)) == Content(false)
  {
    RunConsistent(durationMs, Start(reducedMotion), evs);
    var s := Run(durationMs, Start(reducedMotion), evs);
    if !s.revealed {
      PercentInRange(s.progress, s.progress);
    }
    if reducedMotion {
      ReducedMotionIsImmediate(durationMs, evs);
    }
  }

  /** The shown percentage never goes down between two moments of a run
      whose frames arrive in order after its start. */
  lemma ShownPercentNeverDecreases(durationMs: real, evs: seq<Event>, i: nat, j: nat)
    requires FramesAfterStart(evs) && Chronological(evs)
    requires i <= j <= |evs|
    ensures AllAdmissible(durationMs, evs[..i]) && AllAdmissible(durationMs, evs[..j])
    ensures Percent(Run(durationMs, Start(false), evs[..i]).progress)
         <= Percent(Run(durationMs, Start(false), evs[..j]).progress)
  {
    ProgressNeverDecreases(durationMs, false, evs, i, j);
    var pre := evs[..j];
    assert FramesAfterStart(evs[..i]) && FramesAfterStart(pre);
    RunConsistent(durationMs, Start(false), evs[..i]);
    RunConsistent(durationMs, Start(false), pre);
    PercentInRange(Run(durationMs, Start(false), evs[..i]).progress,
                   Run(durationMs, Start(false), pre).progress);
  }
}
