/**
 The timing state of `NeonShooterGame` as one explicit record, and one call
 of `Update` as a pure step: accumulator and sampler first, unconditionally;
 then the P and F keys; then the simulation, only when not paused. The
 simulation itself (player, entities, spawner, particles, grid) is an opaque
 step `simulate` over a world of type `W`. It may read the public timing
 statics `TickThisFrame`, `GameTime` and `FrameRate` as the timing block has
 just left them.
 */
module NeonShooterGame {
  import opened Clock
  import opened Wrappers
  import TickAccumulator
  import FrameRateSampler
  import FrameRateMode

  /** One call's inputs: the host's clock reading and the key presses seen this frame. */
  datatype FrameInput = Frame(clock: ClockSample, pausePressed: bool, frameRateKeyPressed: bool)

  /**
   The game's statics and fields that matter for timing: the last `GameTime`
   (none before the first `Update`), `frameAccumulation`, `tickThisFrame`,
   the sampler, the frame-rate mode, `paused`, and the simulated world.
   */
  datatype GameState<W> = Game(
    gameTime: Option<ClockSample>,
    frameAccumulation: real,
    tickThisFrame: bool,
    sampler: FrameRateSampler.SamplerState,
    mode: FrameRateMode.ModeState,
    paused: bool,
    world: W)

  /** The public timing statics as the simulation reads them, after this frame's timing block. */
  datatype TimingView = View(tickThisFrame: bool, gameTime: ClockSample, frameRate: nat)

  /** One opaque simulation step, which may consult the timing statics. */
  type Simulation<!W> = (W, TimingView) -> W

  /** Everything the timing code owns: what the pause flag must never affect. */
  datatype TimingState = Timing(
    frameAccumulation: real,
    tickThisFrame: bool,
    sampler: FrameRateSampler.SamplerState,
    mode: FrameRateMode.ModeState)

  function TimingOf<W>(g: GameState<W>): TimingState
  {
    Timing(g.frameAccumulation, g.tickThisFrame, g.sampler, g.mode)
  }

  /** The game as its constructor and static initialisers leave it. */
  function Initial<W>(world: W): (g: GameState<W>)
    ensures g.gameTime.None?
    ensures g.frameAccumulation == 0.0 && !g.tickThisFrame
    ensures g.sampler == FrameRateSampler.Sampler(0, 0.0, 0)
    ensures FrameRateMode.Consistent(g.mode)
    ensures g.mode.settings.syncWithVerticalRetrace && !g.mode.settings.isFixedTimeStep
    ensures !g.paused && g.world == world
  {
    Game(None, 0.0, false, FrameRateSampler.Initial, FrameRateMode.Initial(), false, world)
  }

  /** One call of `Update`. */
  function Update<W>(g: GameState<W>, frame: FrameInput, simulate: Simulation<W>): (r: GameState<W>)
    ensures r.gameTime == Some(frame.clock)
    // the tick is decided by carry plus elapsed, and the carry conserves time
    ensures r.tickThisFrame <==> g.frameAccumulation + frame.clock.elapsed >= TickSeconds
    ensures r.frameAccumulation + (if r.tickThisFrame then TickSeconds else 0.0)
         == g.frameAccumulation + frame.clock.elapsed
    // the published frame rate changes only when the call crosses the window
    ensures r.sampler == FrameRateSampler.Sample(g.sampler, frame.clock.total)
    ensures r.sampler.frameRate != g.sampler.frameRate
         ==> frame.clock.total > g.sampler.windowStart + WindowSeconds
    ensures r.paused == (g.paused != frame.pausePressed)
    ensures r.mode.limitFrameRate60Hz == (g.mode.limitFrameRate60Hz != frame.frameRateKeyPressed)
    // F always re-applies the settings that match the new limit; without F the mode stays as it was
    ensures frame.frameRateKeyPressed ==> r.mode == FrameRateMode.ToggleLimit(g.mode)
    ensures frame.frameRateKeyPressed ==> r.mode.applied == Some(r.mode.settings)
    ensures !frame.frameRateKeyPressed ==> r.mode == g.mode
    ensures FrameRateMode.Consistent(g.mode) ==> FrameRateMode.Consistent(r.mode)
    // the simulation advances exactly when the game is not paused after this frame's P key,
    // and it sees the timing statics as this frame's timing block left them
    ensures r.world == if r.paused then g.world
                       else simulate(g.world, View(r.tickThisFrame, frame.clock, r.sampler.frameRate))
  {
    var step := TickAccumulator.Step(g.frameAccumulation, frame.clock.elapsed);
    var sampler := FrameRateSampler.Sample(g.sampler, frame.clock.total);
    var paused := if frame.pausePressed then !g.paused else g.paused;
    var mode := if frame.frameRateKeyPressed then FrameRateMode.ToggleLimit(g.mode) else g.mode;
    var world := if paused then g.world else simulate(g.world, View(step.tick, frame.clock, sampler.frameRate));
    Game(Some(frame.clock), step.carry, step.tick, sampler, mode, paused, world)
  }

  /**
   `NumFrames`: the last frame's elapsed time in ticks. Before the first
   `Update` the game's `GameTime` is still null and reading it throws; `None`
   stands for that null dereference.
   */
  function NumFrames<W>(g: GameState<W>): (r: Option<real>)
    ensures r.Some? <==> g.gameTime.Some?
    ensures r.Some? ==> r.value * TickSeconds == g.gameTime.value.elapsed
    ensures r.Some? ==> (r.value >= 1.0 <==> g.gameTime.value.elapsed >= TickSeconds)
  {
    match g.gameTime
    case None => None
    case Some(clock) => Some(clock.elapsed / TickSeconds)
  }

  /**
   Pause independence: the timing code behaves identically whatever the
   pause flag, the P key, the world or the simulation step.
   */
  lemma PauseIndependence<W>(g: GameState<W>, frame: FrameInput, simulate: Simulation<W>,
                             paused: bool, pausePressed: bool, world: W, simulate': Simulation<W>)
    ensures TimingOf(Update(g, frame, simulate))
         == TimingOf(Update(g.(paused := paused, world := world),
                            frame.(pausePressed := pausePressed), simulate'))
  {
  }

  /** The game after a run of frames. */
  function Run<W>(g: GameState<W>, frames: seq<FrameInput>, simulate: Simulation<W>): GameState<W>
    decreases |frames|
  {
    if |frames| == 0 then g else Update(Run(g, frames[..|frames| - 1], simulate), frames[|frames| - 1], simulate)
  }

  /** How many frames of a run reported `TickThisFrame`. */
  function TickCount<W>(g: GameState<W>, frames: seq<FrameInput>, simulate: Simulation<W>): nat
    decreases |frames|
  {
    if |frames| == 0 then 0
    else TickCount(g, frames[..|frames| - 1], simulate) + if Run(g, frames, simulate).tickThisFrame then 1 else 0
  }

  /** The elapsed times of a run of frames. */
  function ElapsedOf(frames: seq<FrameInput>): (deltas: seq<real>)
    ensures |deltas| == |frames|
    ensures forall i :: 0 <= i < |frames| ==> deltas[i] == frames[i].clock.elapsed
  {
    seq(|frames|, i requires 0 <= i < |frames| => frames[i].clock.elapsed)
  }

  /** The total game times of a run of frames. */
  function TotalsOf(frames: seq<FrameInput>): (totals: seq<real>)
    ensures |totals| == |frames|
    ensures forall i :: 0 <= i < |frames| ==> totals[i] == frames[i].clock.total
  {
    seq(|frames|, i requires 0 <= i < |frames| => frames[i].clock.total)
  }

  /** How many frames of a run saw the F key pressed. */
  function FramesWithFrameRateKey(frames: seq<FrameInput>): nat
    decreases |frames|
  {
    if |frames| == 0 then 0
    else FramesWithFrameRateKey(frames[..|frames| - 1]) + if frames[|frames| - 1].frameRateKeyPressed then 1 else 0
  }

  /**
   Over any run, the game's carry and tick count are exactly those of the
   accumulator fed the frames' elapsed times, its sampler is the sampler fed
   their total times, and its mode is the starting mode toggled once per F
   press: pauses, the P key and the simulation play no part.
   */
  lemma {:induction false} RunMatchesComponents<W>(g: GameState<W>, frames: seq<FrameInput>, simulate: Simulation<W>)
    ensures Run(g, frames, simulate).frameAccumulation
         == TickAccumulator.Run(g.frameAccumulation, ElapsedOf(frames)).carry
    ensures TickCount(g, frames, simulate)
         == TickAccumulator.Run(g.frameAccumulation, ElapsedOf(frames)).ticks
    ensures Run(g, frames, simulate).sampler
         == FrameRateSampler.Run(g.sampler, TotalsOf(frames))
    ensures Run(g, frames, simulate).mode
         == FrameRateMode.Toggled(g.mode, FramesWithFrameRateKey(frames))
    decreases |frames|
  {
    if |frames| > 0 {
      var prefix := frames[..|frames| - 1];
      RunMatchesComponents(g, prefix, simulate);
      assert ElapsedOf(frames)[..|frames| - 1] == ElapsedOf(prefix);
      assert TotalsOf(frames)[..|frames| - 1] == TotalsOf(prefix);
    }
  }

  /**
   From a fresh game, after any run the mode invariant holds, and the 60 Hz
   limit is on (display sync off) exactly when F was pressed an odd number
   of times.
   */
  lemma ModeAfterAnyRun<W>(world: W, frames: seq<FrameInput>, simulate: Simulation<W>)
    ensures FrameRateMode.Consistent(Run(Initial(world), frames, simulate).mode)
    ensures Run(Initial(world), frames, simulate).mode.limitFrameRate60Hz
        <==> FramesWithFrameRateKey(frames) % 2 == 1
    ensures Run(Initial(world), frames, simulate).mode.settings.syncWithVerticalRetrace
        <==> FramesWithFrameRateKey(frames) % 2 == 0
  {
    RunMatchesComponents(Initial(world), frames, simulate);
    FrameRateMode.TogglesFromInitial(FramesWithFrameRateKey(frames));
  }

  /**
   From a fresh game, with a host clock that never reports negative elapsed
   time, the number of ticked frames never exceeds the number of frames nor
   floor(60 · Σelapsed), and the carry never goes negative.
   */
  lemma TickConservation<W>(world: W, frames: seq<FrameInput>, simulate: Simulation<W>)
    requires NonNegative(ElapsedOf(frames))
    ensures 0.0 <= Run(Initial(world), frames, simulate).frameAccumulation
    ensures Run(Initial(world), frames, simulate).frameAccumulation
         == Sum(ElapsedOf(frames)) - TickCount(Initial(world), frames, simulate) as real * TickSeconds
    ensures TickCount(Initial(world), frames, simulate) <= |frames|
    ensures TickCount(Initial(world), frames, simulate) <= (60.0 * Sum(ElapsedOf(frames))).Floor
  {
    RunMatchesComponents(Initial(world), frames, simulate);
    TickAccumulator.TicksNeverExceedElapsed(0.0, ElapsedOf(frames));
  }

  /**
   From a fresh game, when no frame lasts longer than one tick, the ticked
   frames number exactly floor(60 · Σelapsed) and the carry stays below one tick.
   */
  lemma BoundedFramesTrackWallClock<W>(world: W, frames: seq<FrameInput>, simulate: Simulation<W>)
    requires WithinOneTick(ElapsedOf(frames))
    ensures 0.0 <= Run(Initial(world), frames, simulate).frameAccumulation < TickSeconds
    ensures TickCount(Initial(world), frames, simulate) == (60.0 * Sum(ElapsedOf(frames))).Floor
  {
    RunMatchesComponents(Initial(world), frames, simulate);
    TickAccumulator.BoundedDeltasTrackWallClock(0.0, ElapsedOf(frames));
  }
  /** `n` frames of exactly one tick each from time 0, with no key pressed. */
  function EvenFrames(n: nat): (frames: seq<FrameInput>)
    ensures |frames| == n
    ensures forall k :: 0 <= k < n ==> frames[k] == Frame(ClockSample(TickSeconds, (k + 1) as real * TickSeconds), false, false)
  {
    seq(n, k => Frame(ClockSample(TickSeconds, (k + 1) as real * TickSeconds), false, false))
  }

  /** A fresh game fed `n` one-tick frames ticks every time and samples at 1/60 s spacing. */
  lemma EvenFramesMatchComponents<W>(world: W, simulate: Simulation<W>, n: nat)
    ensures TickCount(Initial(world), EvenFrames(n), simulate) == n
    ensures Run(Initial(world), EvenFrames(n), simulate).frameAccumulation == 0.0
    ensures Run(Initial(world), EvenFrames(n), simulate).sampler
         == FrameRateSampler.Run(FrameRateSampler.Initial, FrameRateSampler.Evenly(0.0, TickSeconds, n))
  {
    var frames := EvenFrames(n);
    TickAccumulator.ExactTicksTickEveryCall(ElapsedOf(frames));
    RunMatchesComponents(Initial(world), frames, simulate);
    assert TotalsOf(frames) == FrameRateSampler.Evenly(0.0, TickSeconds, n);
  }

  /**
   The 60 Hz run from a fresh game: every frame ticks and the carry stays
   empty; the 61st frame publishes a frame rate of 60, and the next window
   closes on the 122nd frame, again with 60.
   */
  lemma SixtyHertzEndToEnd<W>(world: W, simulate: Simulation<W>)
    ensures TickCount(Initial(world), EvenFrames(122), simulate) == 122
    ensures Run(Initial(world), EvenFrames(122), simulate).frameAccumulation == 0.0
    ensures Run(Initial(world), EvenFrames(61), simulate).sampler.frameRate == 60
    ensures Run(Initial(world), EvenFrames(121), simulate).sampler.frameCount == 60
    ensures Run(Initial(world), EvenFrames(122), simulate).sampler
         == FrameRateSampler.Sampler(0, 122.0 * TickSeconds, 60)
  {
    FrameRateSampler.SixtyHertzScenario();
    EvenFramesMatchComponents(world, simulate, 61);
    EvenFramesMatchComponents(world, simulate, 121);
    EvenFramesMatchComponents(world, simulate, 122);
  }
}
