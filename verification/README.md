# LoadingReveal progress timing, modelled in Dafny

This project models the progress-timing logic of the `LoadingReveal` splash
component (`src/components/LoadingReveal.tsx`). It covers the per-frame `tick`
callback, the reduced-motion short-circuit, the one-shot reveal timer and the
floored percentage the splash displays. React, the browser and the clock are
abstracted away. Elapsed time is a parameter. Frame and timer callbacks are
events delivered to an immutable state record.

- `timing.dfy`, module `Timing`: `tick` as a pure function of the nominal
  duration `d` and the elapsed time `e`, over the reals. The run is split into
  a ramp of `0.64 d` that climbs linearly to 92, a hold of `0.22 d` at 92 and a
  finish of `0.14 d` that climbs from 92 to 100. After that the run is done:
  progress is 100, the flash is raised and no further frame is requested.
- `reveal.dfy`, module `Reveal`: the state `(progress, flashing, revealed,
  framePending, timerPending)`. It also has the mount effect `Start`, the
  events `AnimationFrame(e)` and `TimeoutFired`, one `Step` and whole `Run`s
  over event sequences. An event that nothing scheduled is not delivered and
  changes nothing.
- `display.dfy`, module `Display`: `Math.floor(progress)` as shown in the
  label and the bar's announced value, and which view is rendered.

The ramp and the finish are linear, and the caps are fixed at 92 and 100.

Observations the proofs make precise:

- A frame timestamped before the run's start gives a negative progress when
  `d > 0` (`Timing.NegativeElapsedUndershoots`). Browsers can hand
  `requestAnimationFrame` callbacks a timestamp earlier than the
  `performance.now()` captured in the effect. The `[0, 100]` bounds therefore
  assume `e >= 0`.
- For `d < 0` and `e < 0.64 d`, the ramp ratio exceeds one and the
  `Math.min(92, …)` cap binds. For `d > 0` and `e >= 0` it never binds
  (`Timing.RampWindow`).
- The timer sets `revealed` and clears `flashing` in the same callback.
  When the two updates are batched, the flash overlay is never rendered,
  because it is drawn only inside the revealed view (`Display.ViewOfRun`).

## Model

| member | source | states |
|---|---|---|
| Timing.Min | src/components/LoadingReveal.tsx:45-52 | the result is no larger than either argument and equals one of them, as `Math.min` does |
| Timing.ScheduleFor | src/components/LoadingReveal.tsx:37-39 | the ramp, hold and finish windows add up to exactly the nominal duration; they are positive and ordered when the duration is positive, and all non-positive otherwise |
| Timing.PhaseAt | src/components/LoadingReveal.tsx:44-54 | for a non-negative duration or elapsed time, a frame takes the terminal branch exactly when elapsed >= duration; a non-positive duration with elapsed >= 0 goes straight to the terminal branch |
| Timing.Tick | src/components/LoadingReveal.tsx:42-61 | for a non-negative duration or elapsed time, a frame re-requests itself exactly while elapsed < duration; in every case it raises the flash exactly when it does not; for elapsed >= 0 progress lies in [0, 100], is below 100 before the duration, and, for a non-negative duration, is 100 from the duration on |
| Timing.FinishFraction | src/components/LoadingReveal.tsx:50-51 | in the finish window the finish length is positive and the normalised time t lies in [0, 1) |
| Timing.RampWindow | src/components/LoadingReveal.tsx:44-46 | in the ramp window progress is (e / (0.64 d)) * 92 and lies in [0, 92), so the Math.min never binds |
| Timing.HoldWindow | src/components/LoadingReveal.tsx:47-49 | in the hold window progress is exactly 92 and another frame is requested without a flash |
| Timing.FinishWindow | src/components/LoadingReveal.tsx:50-53 | in the finish window t lies in [0, 1) and progress is 92 + 8 t, which lies in [92, 100) |
| Timing.DivisionsGuarded | src/components/LoadingReveal.tsx:44-55 | for elapsed >= 0 the ramp divisor is positive whenever the ramp branch runs and the finish divisor is positive whenever the finish branch runs; a non-positive duration goes to the terminal branch without dividing |
| Timing.FrameRequestedUntilDone | src/components/LoadingReveal.tsx:44-61 | a next frame is requested exactly in the three non-terminal branches, and the flash is raised exactly in the terminal one |
| Timing.TickMonotone | src/components/LoadingReveal.tsx:44-55 | progress is non-decreasing in elapsed time across all four branches and their boundaries, for every duration |
| Timing.NegativeElapsedUndershoots | src/components/LoadingReveal.tsx:43-45 | with a positive duration, a frame timestamped before the start sets a negative progress (the callback does not clamp from below) |
| Timing.DefaultRunSamples | src/components/LoadingReveal.tsx:36-55 | for the default 2500 ms run, progress is 0 at 0 ms, 46 at 800 ms, 92 at 1600 ms, 96 at 2325 ms, and 100 with the flash at 2500 ms |
| Reveal.Start | src/components/LoadingReveal.tsx:28-64 | with reduced motion the mount effect sets progress 100 and revealed, and schedules nothing; otherwise it leaves progress at 0, unrevealed, with the first frame requested |
| Reveal.Step | src/components/LoadingReveal.tsx:42-61 | an unscheduled frame or timer changes nothing; a delivered frame sets the progress the callback computes, never reveals, keeps a frame pending exactly while elapsed < duration (for a non-negative duration or elapsed time), and leaves the flash on and the timer pending afterwards exactly when they already were or the frame chain stops; the timer leaves progress and the frame request as they were, and if it was pending it reveals and clears the flash; revealed is never undone |
| Reveal.Run | src/components/LoadingReveal.tsx:42-64 | a run with nothing scheduled is unchanged by any events; revealed is never undone; frames alone never reveal |
| Reveal.RunConsistent | src/components/LoadingReveal.tsx:44-60 | along every run with frames after the start, progress stays in [0, 100], the flash lasts exactly while the timer is pending, and a revealed run is at 100 with nothing scheduled |
| Reveal.ReducedMotionIsImmediate | src/components/LoadingReveal.tsx:29-33 | with reduced motion the run is revealed at 100 with no frame requested, and no sequence of events changes it |
| Reveal.ProgressNeverDecreases | src/components/LoadingReveal.tsx:42-55 | for chronological frames after the start, the progress after i events is at most the progress after j >= i events |
| Reveal.RevealNeedsTimer | src/components/LoadingReveal.tsx:57-60 | a run that was not revealed and ends revealed contains a timer event that arrives while the timer is pending and while the run is still unrevealed |
| Reveal.TerminalFrame | src/components/LoadingReveal.tsx:54-60 | for a non-negative duration, from a consistent run waiting on a frame, a frame at or after the duration gives progress 100 with the flash on, unrevealed and with no frame pending; later frames change nothing; the timer then reveals with the flash off |
| Reveal.DefaultRunReveals | src/components/LoadingReveal.tsx:36-60 | the default run sampled at 0, 800, 1600, 2325 and 2500 ms is at 96 after four frames, flashing at 100 after five, and revealed with the flash cleared after the timer |
| Display.Percent | src/components/LoadingReveal.tsx:85-90 | the shown figure is the greatest whole number not above progress |
| Display.PercentInRange | src/components/LoadingReveal.tsx:85-90 | for progress in [0, 100] the shown figure lies in 0..100, is 100 exactly at full progress, and is monotone in progress |
| Display.View | src/components/LoadingReveal.tsx:73-99 | the loading view with the floored figure is shown exactly while unrevealed; the content shows the flash overlay exactly while flashing |
| Display.ViewOfRun | src/components/LoadingReveal.tsx:73-99 | with frames timestamped after the start, every state reached from the mount effect shows a percentage in 0..100 or the content without the flash overlay; under reduced motion it is always the content |
| Display.ShownPercentNeverDecreases | src/components/LoadingReveal.tsx:85-90 | the displayed percentage never goes down between two moments of a run whose frames arrive in order after its start |

## Left out

- JSX markup, styling classes, the logo image and the text of the headline (lines 70-117) are presentation. Only which view is shown and the floored figure are modelled.
- `requestAnimationFrame`, `cancelAnimationFrame`, `setTimeout` and `performance.now()` are not modelled as real scheduling. A frame is an event carrying its elapsed time. The timer is an event that is delivered only while pending. The 360 ms delay is not modelled, only the order of events.
- `window.matchMedia` (line 24) is not modelled: reduced motion is a boolean input to `Start`.
- React state batching, re-rendering, re-running the effect when `durationMs` changes, and the unmount cleanup (lines 65-67) are host lifecycle concerns. The cleanup cancels a pending frame but not the 360 ms timer, which can still fire after unmount; this is noted here and not modelled.
- IEEE-754 rounding is not modelled: the model uses reals. `0.64 d + 0.22 d + 0.14 d == d` holds exactly there but need not hold bit-exactly in floating point. Infinite and NaN durations are not modelled.
- Timing.Tick: not defined for a zero duration with a negative elapsed time. The source divides by zero there and gets `-Infinity`, which reals cannot represent.
- Timing.Tick: the progress bounds are stated for elapsed >= 0 only. `Timing.NegativeElapsedUndershoots` shows what happens before the start.
- Reveal.ProgressNeverDecreases: stated for frames after the start in chronological order, which a browser's frame timestamps satisfy except for the first frame (see the observation above).
