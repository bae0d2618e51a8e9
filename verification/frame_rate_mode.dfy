/**
 The frame-rate mode controller: the F key flips `limitFrameRate60Hz`, and
 `SetFrameRate` then writes the three display settings together and calls
 the graphics manager's `ApplyChanges`. The `applied` snapshot abstracts that
 call as recording all three settings at once. Fixed-step mode (capped at 60 Hz)
 and vertical-retrace synchronisation are always each other's complement.
 */
module FrameRateMode {
  import opened Clock
  import opened Wrappers

  /**
   The backend settings the game writes: `IsFixedTimeStep`,
   `SynchronizeWithVerticalRetrace` and `TargetElapsedTime` (in seconds).
   */
  datatype DisplaySettings = Display(isFixedTimeStep: bool, syncWithVerticalRetrace: bool, targetElapsedTime: real)

  /**
   The game's requested mode and settings, and the last settings pushed to
   the backend by `ApplyChanges` (none until the first explicit apply).
   */
  datatype ModeState = Mode(limitFrameRate60Hz: bool, settings: DisplaySettings, applied: Option<DisplaySettings>)

  /** The settings that belong to a given limit flag. */
  predicate Matches(settings: DisplaySettings, limitFrameRate60Hz: bool)
  {
    && settings.isFixedTimeStep == limitFrameRate60Hz
    && settings.syncWithVerticalRetrace == !limitFrameRate60Hz
    && settings.targetElapsedTime == TickSeconds
  }

  /**
   The mode invariant: fixed step equals the limit flag, vertical-retrace
   synchronisation is its complement, the target interval is one tick, and
   whatever reached the backend is exactly the requested settings.
   */
  predicate Consistent(m: ModeState)
  {
    && Matches(m.settings, m.limitFrameRate60Hz)
    && (m.applied.Some? ==> m.applied.value == m.settings)
  }

  /** The mode the constructor sets up: unlimited, synchronised with the display. */
  function Initial(): (m: ModeState)
    ensures Consistent(m)
    ensures !m.limitFrameRate60Hz && m.settings.syncWithVerticalRetrace && !m.settings.isFixedTimeStep
  {
    Mode(false, Display(false, true, TickSeconds), None)
  }

  /**
   `SetFrameRate(flag)`: sets fixed step to `flag`, synchronisation to its
   negation and the target interval to one tick, then calls `ApplyChanges`,
   recorded here as a snapshot of all three settings. It does not touch the
   limit flag itself.
   */
  function SetFrameRate(m: ModeState, flag: bool): (r: ModeState)
    ensures Matches(r.settings, flag)
    ensures r.applied == Some(r.settings)
    ensures r.limitFrameRate60Hz == m.limitFrameRate60Hz
  {
    var settings := Display(flag, flag == false, TickSeconds);
    Mode(m.limitFrameRate60Hz, settings, Some(settings))
  }

  /** The F key: flip the limit flag, then `SetFrameRate` with the new value. */
  function ToggleLimit(m: ModeState): (r: ModeState)
    ensures r.limitFrameRate60Hz == !m.limitFrameRate60Hz
    ensures Consistent(r)
    ensures r.applied == Some(r.settings)
  {
    SetFrameRate(m.(limitFrameRate60Hz := !m.limitFrameRate60Hz), !m.limitFrameRate60Hz)
  }

  /** Applying the same flag twice leaves the same state as applying it once. */
  lemma SetFrameRateIdempotent(m: ModeState, flag: bool)
    ensures SetFrameRate(SetFrameRate(m, flag), flag) == SetFrameRate(m, flag)
  {
  }

  /** Once anything has been applied, pressing F twice restores the previous state exactly. */
  lemma ToggleTwiceRestores(m: ModeState)
    requires Consistent(m)
    requires m.applied.Some?
    ensures ToggleLimit(ToggleLimit(m)) == m
  {
  }

  /** The mode after `n` presses of F. */
  function Toggled(m: ModeState, n: nat): ModeState
  {
    if n == 0 then m else ToggleLimit(Toggled(m, n - 1))
  }

  /**
   From the constructor's mode, any number of F presses keeps the mode
   invariant, and the limit is on exactly after an odd number of presses.
   */
  lemma {:induction false} TogglesFromInitial(n: nat)
    ensures Consistent(Toggled(Initial(), n))
    ensures Toggled(Initial(), n).limitFrameRate60Hz <==> n % 2 == 1
    ensures Toggled(Initial(), n).settings.syncWithVerticalRetrace <==> n % 2 == 0
  {
    if n > 0 {
      TogglesFromInitial(n - 1);
    }
  }
}
