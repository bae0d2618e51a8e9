# NeonShooter frame timing, modelled in Dafny

This project models the per-frame timing state machine inside
`NeonShooterGame` (MonoGame's Neon Shooter sample, extended with a
60 Hz tick signal and a frame-rate read-out). Each call of `Update` runs
three parts. The first two change the class's static fields
(`frameAccumulation`, `tickThisFrame`, `frameRate`, `frameCountThisSecond`,
`frameStartSecond`). The third changes the instance field
`limitFrameRate60Hz` and the game's display settings.

- **Tick accumulator.** It adds the frame's elapsed seconds to
  `frameAccumulation`. It sets `tickThisFrame` when the carry reaches 1/60 s
  and then subtracts exactly one 1/60 s. It reports at most one tick per
  call, so after a stall the carry can stay at or above 1/60 s.
- **Frame-rate sampler.** It counts calls in `frameCountThisSecond`. On the
  first call whose total game time is strictly beyond `frameStartSecond + 1`,
  it publishes the count as `frameRate`, resets the count to 0 and moves the
  window start to the current time. That boundary call is counted in neither
  window.
- **Frame-rate mode controller.** The F key flips `limitFrameRate60Hz` and
  calls `SetFrameRate`. `SetFrameRate` sets the game's `IsFixedTimeStep` to
  the flag and its `TargetElapsedTime` to 1/60 s. It sets the graphics
  manager's `SynchronizeWithVerticalRetrace` to the flag's negation and calls
  the manager's `ApplyChanges`. The model records that call as an `applied`
  snapshot of all three settings; the snapshot is an abstraction of the
  backend's state. The P key flips the instance field `paused`, which gates
  only the simulation that runs after the timing code.

The statics and the timing-related instance fields become one immutable
record, `NeonShooterGame.GameState`, and `Update` becomes a pure function of
that record. Its inputs are the host's clock sample and the key presses of
the frame. The simulation (player, entities, spawner, particles, grid) is an
opaque step `simulate` over a world of any type `W`. That step receives the
public statics `TickThisFrame`, `GameTime` and `FrameRate` as this frame's
timing block has just left them. Seconds are exact `real`s.

Modules, one per component: `Wrappers` (`Option`), `Clock` (the 1/60 s
tick, the one-second window, clock samples, sums of durations),
`TickAccumulator`, `FrameRateSampler`, `FrameRateMode`, and
`NeonShooterGame` (the whole `Update` step, `NumFrames`, and properties of
runs of frames).

Consequences of the code that are easy to get wrong:

- A 10-second frame reports one tick and leaves a carry of 10 − 1/60 s
  (`TickAccumulator.LongStallRetainsExcess`). The carry is therefore not
  always below 1/60 s after an update.
- The tick count equals floor(60 · Σelapsed) whenever no frame is longer
  than one tick (`TickAccumulator.BoundedDeltasTrackWallClock`). A frame
  longer than one tick can break this. For example, two 1.5-tick frames
  from an empty carry give 2 ticks where floor(60 · Σelapsed) is 3
  (`TickAccumulator.TwoLongFramesTrailWallClock`). Right after a single
  10-second frame from an empty carry, the count is 1 while
  floor(60 · Σelapsed) is 600 (`TickAccumulator.TenSecondStallTrailsWallClock`).
  The excess is paid out as one tick on each later call
  (`TickAccumulator.ExcessDrainsOneTickPerCall`). The lag behind
  floor(60 · Σelapsed) shrinks only by how much each later frame falls short
  of one tick. With later frames of exactly 1/60 s the carry stays at
  10 − 1/60 s and the lag stays at 599 forever
  (`TickAccumulator.StallLagPersistsAtSixtyHertz`).
- With frames exactly 1/60 s apart from time 0, the rate is published on
  calls 61 and 122, both times as 60 (`FrameRateSampler.SixtyHertzScenario`).
  Call 121 is at 121/60 s, exactly one second after the window opened at
  61/60 s. That is not strictly beyond the window, so call 121 is counted.
- The boundary call resets the count to 0.

## Model

| member | source | states |
|---|---|---|
| TickAccumulator.Step | NeonShooter/NeonShooter.Core/NeonShooterGame.cs:126-129 | a tick is reported exactly when carry + elapsed ≥ 1/60; carry + consumed time = old carry + elapsed, so at most one tick is consumed per call and no time is lost; the carry stays non-negative for non-negative inputs; a carry below 1/60 stays below 1/60 when the frame lasts at most one tick |
| TickAccumulator.Run | NeonShooter/NeonShooter.Core/NeonShooterGame.cs:126-129 | over any run of calls: carry = initial carry + Σelapsed − ticks · 1/60, and ticks ≤ number of calls |
| TickAccumulator.TicksNeverExceedElapsed | NeonShooter/NeonShooter.Core/NeonShooterGame.cs:126-129 | with non-negative deltas the carry stays ≥ 0 and ticks · 1/60 ≤ carry₀ + Σelapsed; from carry 0, ticks ≤ floor(60 · Σelapsed) |
| TickAccumulator.BoundedDeltasTrackWallClock | NeonShooter/NeonShooter.Core/NeonShooterGame.cs:126-129 | when every frame lasts at most 1/60 s, a carry in [0, 1/60) stays in [0, 1/60), and from carry 0 the tick count equals floor(60 · Σelapsed) |
| TickAccumulator.LongStallRetainsExcess | NeonShooter/NeonShooter.Core/NeonShooterGame.cs:126-129 | a frame of at least two ticks reports one tick and keeps everything above one tick in the carry, which stays ≥ 1/60 |
| TickAccumulator.TenSecondStallTrailsWallClock | NeonShooter/NeonShooter.Core/NeonShooterGame.cs:126-129 | one 10-second frame from an empty carry reports one tick and keeps 10 − 1/60 s, while floor(60 · Σelapsed) is 600 |
| TickAccumulator.TwoLongFramesTrailWallClock | NeonShooter/NeonShooter.Core/NeonShooterGame.cs:126-129 | two frames of 1.5 ticks from an empty carry report 2 ticks while floor(60 · Σelapsed) is 3, so any frame longer than one tick can break exact tracking |
| TickAccumulator.ExcessDrainsOneTickPerCall | NeonShooter/NeonShooter.Core/NeonShooterGame.cs:126-129 | a carry holding n ticks makes each of the next n calls tick, whatever their non-negative deltas |
| TickAccumulator.OneTickFramesKeepCarry | NeonShooter/NeonShooter.Core/NeonShooterGame.cs:126-129 | frames of exactly 1/60 s tick on every call and leave any non-negative carry exactly where it was |
| TickAccumulator.RunAppend | NeonShooter/NeonShooter.Core/NeonShooterGame.cs:126-129 | running the accumulator over two stretches of calls in turn gives the same carry and total ticks as running it over their concatenation |
| TickAccumulator.StallLagPersistsAtSixtyHertz | NeonShooter/NeonShooter.Core/NeonShooterGame.cs:126-129 | after one 10-second frame followed by any number of 1/60 s frames, the carry stays 10 − 1/60 s and the ticks stay exactly 599 behind floor(60 · Σelapsed) |
| TickAccumulator.ExactTicksTickEveryCall | NeonShooter/NeonShooter.Core/NeonShooterGame.cs:126-129 | frames of exactly 1/60 s from an empty carry tick on every call and leave the carry empty |
| FrameRateSampler.Sample | NeonShooter/NeonShooter.Core/NeonShooterGame.cs:131-138 | a call beyond the window publishes the pre-reset count, resets the count to 0, restarts the window at the current time and is not counted; any other call adds exactly one to the count and changes nothing else; the published rate changes only on boundary calls |
| FrameRateSampler.RunAppend | NeonShooter/NeonShooter.Core/NeonShooterGame.cs:131-138 | running the sampler over two stretches of calls in turn equals running it over their concatenation |
| FrameRateSampler.CountsCallsWithinWindow | NeonShooter/NeonShooter.Core/NeonShooterGame.cs:137-138 | calls that stay inside the open window each add one to the count and leave the published rate and window start unchanged |
| FrameRateSampler.PublishesCompletedWindow | NeonShooter/NeonShooter.Core/NeonShooterGame.cs:131-136 | the first call beyond the window publishes exactly the number of calls counted in it, resets the count and opens the next window at its own time |
| FrameRateSampler.WindowStartIsPastReading | NeonShooter/NeonShooter.Core/NeonShooterGame.cs:131-136 | on a clock that never runs backwards, the window start is always a clock reading already seen and never ahead of the latest call |
| FrameRateSampler.EvenClockPublishesCallsPerWindow | NeonShooter/NeonShooter.Core/NeonShooterGame.cs:131-138 | with calls evenly spaced so that exactly n fit in one second, the (n+1)-th call after a window opens publishes rate n |
| FrameRateSampler.SixtyHertzScenario | NeonShooter/NeonShooter.Core/NeonShooterGame.cs:131-138 | with calls 1/60 s apart from time 0, the 61st call publishes 60, the 121st is still counted (count 60), and the 122nd publishes 60 again |
| FrameRateMode.Initial | NeonShooter/NeonShooter.Core/NeonShooterGame.cs:42-66 | the constructor's mode satisfies the mode invariant: limit off, fixed step off, vertical-retrace sync on, target 1/60 s |
| FrameRateMode.SetFrameRate | NeonShooter/NeonShooter.Core/NeonShooterGame.cs:242-249 | fixed step equals the flag, vertical-retrace sync is its negation, the target is 1/60 s, and the snapshot recorded for `ApplyChanges` is exactly these settings; the limit flag itself is untouched |
| FrameRateMode.ToggleLimit | NeonShooter/NeonShooter.Core/NeonShooterGame.cs:155-159 | the F key negates the limit flag and leaves the mode invariant holding, with the new settings applied |
| FrameRateMode.SetFrameRateIdempotent | NeonShooter/NeonShooter.Core/NeonShooterGame.cs:242-249 | applying the same flag twice gives the same state as applying it once |
| FrameRateMode.ToggleTwiceRestores | NeonShooter/NeonShooter.Core/NeonShooterGame.cs:155-159 | once settings have been applied, two F presses restore the previous mode exactly |
| FrameRateMode.TogglesFromInitial | NeonShooter/NeonShooter.Core/NeonShooterGame.cs:155-159 | from the constructor's mode, any number of F presses keeps the invariant; the limit is on, and sync off, exactly after an odd number of presses |
| NeonShooterGame.Initial | NeonShooter/NeonShooter.Core/NeonShooterGame.cs:39-47 | a fresh game has no `GameTime` yet, an empty carry, no tick, a sampler with count 0, window start 0 and rate 0, is not paused, holds the given world, and its mode satisfies the mode invariant with display sync on |
| NeonShooterGame.Update | NeonShooter/NeonShooter.Core/NeonShooterGame.cs:120-170 | records the clock sample; ticks exactly when carry + elapsed ≥ 1/60 and conserves time; steps the sampler once at the frame's total time, so the published rate changes only on a window-crossing call; P flips the pause flag; F flips the limit and applies the matching settings (the mode becomes `ToggleLimit` of the old one, with the new settings recorded as applied) and keeps the mode invariant; without F the mode is unchanged; the world advances by one simulation step exactly when the game is not paused after this frame's P key, and that step sees the tick flag, clock sample and frame rate left by this frame's timing block |
| NeonShooterGame.NumFrames | NeonShooter/NeonShooter.Core/NeonShooterGame.cs:26 | absent before the first `Update`; otherwise the last frame's elapsed time measured in ticks, which is ≥ 1 exactly when that frame alone lasts a tick |
| NeonShooterGame.PauseIndependence | NeonShooter/NeonShooter.Core/NeonShooterGame.cs:126-169 | the accumulator, sampler and mode after `Update` do not depend on the pause flag, the P key, the world or the simulation step |
| NeonShooterGame.RunMatchesComponents | NeonShooter/NeonShooter.Core/NeonShooterGame.cs:122-139 | over any run of frames, the game's carry and tick count equal the accumulator's over the frames' elapsed times, its sampler equals the sampler run over their total times, and its mode is the starting mode toggled once per frame with F pressed |
| NeonShooterGame.ModeAfterAnyRun | NeonShooter/NeonShooter.Core/NeonShooterGame.cs:155-159 | from a fresh game, after any run the mode invariant holds, and the limit is on and display sync off exactly when F was pressed in an odd number of frames |
| NeonShooterGame.TickConservation | NeonShooter/NeonShooter.Core/NeonShooterGame.cs:126-129 | from a fresh game with non-negative elapsed times: carry = Σelapsed − ticks · 1/60 ≥ 0, ticks ≤ number of frames, and ticks ≤ floor(60 · Σelapsed), whatever the pauses and key presses |
| NeonShooterGame.BoundedFramesTrackWallClock | NeonShooter/NeonShooter.Core/NeonShooterGame.cs:126-129 | from a fresh game with frames of at most 1/60 s, the carry stays in [0, 1/60) and the tick count equals floor(60 · Σelapsed) |
| NeonShooterGame.EvenFramesMatchComponents | NeonShooter/NeonShooter.Core/NeonShooterGame.cs:126-138 | a fresh game fed n frames of exactly 1/60 s ticks n times, keeps an empty carry, and samples at totals 1/60, 2/60, … |
| NeonShooterGame.SixtyHertzEndToEnd | NeonShooter/NeonShooter.Core/NeonShooterGame.cs:126-138 | 122 frames of exactly 1/60 s from a fresh game all tick; frame 61 publishes a rate of 60, frame 121 is still counted, and frame 122 publishes 60 again |

## Left out

- Floating point: seconds are exact reals. The game's `double` arithmetic (repeatedly adding and subtracting 1/60) and its comparisons can round differently near a tick or window boundary. `TimeSpan.FromSeconds(1.0 / 60.0)` rounds to the `TimeSpan` resolution, which this model ignores as well.
- FrameRateSampler.Sample: counts are unbounded naturals. The game's `int` counter would wrap after 2^31 − 1 calls inside one window, which needs a total clock that has stopped advancing.
- Rendering: `Draw`, `DrawRightAlignedString`, `DrawTitleSafeAlignedString`, `DrawTitleSafeRightAlignedString`, bloom and `SpriteBatch` call into graphics APIs outside this model. The B key only toggles bloom visibility, so it is left out too.
- Simulation: `PlayerStatus`, `EntityManager`, `EnemySpawner`, `ParticleManager` and `Grid` are in other files. They are one opaque `simulate` step, gated by `paused`.
- Input polling: `Input.Update` and `WasKeyPressed` become the boolean key presses of `FrameInput`. The Escape/Back exit request ends the host loop and is not modelled.
- NeonShooterGame.NumFrames: reads a value copy of the last clock sample. The game stores the host's `GameTime` object by reference and reads it through that reference, so a host that mutates the object between calls would change what `NumFrames` returns; the model assumes it does not.
- Backend effects: `graphics.ApplyChanges()` is recorded only as a snapshot of the applied settings. How MonoGame then schedules `Update` calls in fixed-step mode, and how `GameTime` is produced, belong to the host clock, which supplies `ClockSample`.
- Content and audio: `Initialize`, `LoadContent` and `MediaPlayer`.
- Sample-Template/Program.cs is platform bootstrap with no timing logic and is not part of this model.
