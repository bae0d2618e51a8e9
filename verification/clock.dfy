/**
 Units and clock readings shared by the timing components of the NeonShooter
 game loop. Seconds are exact reals: the game computes with IEEE doubles, and
 this model deliberately abstracts their rounding away.
 */
module Clock {

  /** One logical tick, the `1.0 / 60.0` second the game uses throughout. */
  const TickSeconds: real := 1.0 / 60.0

  /** Length of one frame-rate sampling window, in seconds. */
  const WindowSeconds: real := 1.0

  /**
   What the host's loop driver hands to every `Update`: the seconds elapsed
   since the previous call and the seconds elapsed since the game started.
   */
  datatype ClockSample = ClockSample(elapsed: real, total: real)

  /** Sum of a sequence of durations, added left to right. */
  function Sum(deltas: seq<real>): real
  {
    if |deltas| == 0 then 0.0 else Sum(deltas[..|deltas| - 1]) + deltas[|deltas| - 1]
  }

  /** Every duration is non-negative, as the host clock guarantees. */
  predicate NonNegative(deltas: seq<real>)
  {
    forall i :: 0 <= i < |deltas| ==> 0.0 <= deltas[i]
  }

  /** Every duration is non-negative and at most one tick long. */
  predicate WithinOneTick(deltas: seq<real>)
  {
    forall i :: 0 <= i < |deltas| ==> 0.0 <= deltas[i] <= TickSeconds
  }
}
