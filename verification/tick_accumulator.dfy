/**
 The tick accumulator of `NeonShooterGame.Update`: each call adds the frame's
 elapsed seconds to a carry, reports a tick when the carry has reached one
 1/60 s tick, and then removes exactly one tick from the carry. At most one
 tick is reported per call; whatever exceeds one tick stays in the carry.
 */
module TickAccumulator {
  import opened Clock

  /** The carry after one update, and whether that update reported a tick. */
  datatype StepResult = StepResult(carry: real, tick: bool)

  /** One update of `frameAccumulation` and `tickThisFrame`. */
  function Step(carry: real, elapsed: real): (r: StepResult)
    // a tick is reported exactly when the carry plus this frame reaches one tick
    ensures r.tick <==> carry + elapsed >= TickSeconds
    // no time is lost or created: the carry plus what was consumed is what came in
    ensures r.carry + (if r.tick then TickSeconds else 0.0) == carry + elapsed
    ensures 0.0 <= carry && 0.0 <= elapsed ==> 0.0 <= r.carry
    ensures 0.0 <= carry < TickSeconds && 0.0 <= elapsed <= TickSeconds ==> r.carry < TickSeconds
  {
    var accumulated := carry + elapsed;
    if accumulated >= TickSeconds then StepResult(accumulated - TickSeconds, true)
    else StepResult(accumulated, false)
  }

  /** The carry after a whole run of updates, and how many of them reported a tick. */
  datatype RunResult = RunResult(carry: real, ticks: nat)

  /** Feeds `deltas` to the accumulator one call at a time, starting from `carry0`. */
  function Run(carry0: real, deltas: seq<real>): (r: RunResult)
    // conservation: carry = carry0 + Σelapsed − ticks · (1/60)
    ensures r.carry == carry0 + Sum(deltas) - r.ticks as real * TickSeconds
    // never more than one tick per call
    ensures r.ticks <= |deltas|
    decreases |deltas|
  {
    if |deltas| == 0 then RunResult(carry0, 0)
    else
      var before := Run(carry0, deltas[..|deltas| - 1]);
      var step := Step(before.carry, deltas[|deltas| - 1]);
      RunResult(step.carry, before.ticks + if step.tick then 1 else 0)
  }

  /**
   With non-negative deltas the carry never goes negative, so the ticks
   reported never exceed the time fed in: from an empty carry, at most
   floor(60 · Σelapsed) ticks.
   */
  lemma {:induction false} TicksNeverExceedElapsed(carry0: real, deltas: seq<real>)
    requires 0.0 <= carry0
    requires NonNegative(deltas)
    ensures 0.0 <= Run(carry0, deltas).carry
    ensures Run(carry0, deltas).ticks as real * TickSeconds <= carry0 + Sum(deltas)
    ensures carry0 == 0.0 ==> Run(carry0, deltas).ticks <= (60.0 * Sum(deltas)).Floor
    decreases |deltas|
  {
    if |deltas| > 0 {
      TicksNeverExceedElapsed(carry0, deltas[..|deltas| - 1]);
    }
    var r := Run(carry0, deltas);
    if carry0 == 0.0 {
      assert r.ticks as real <= 60.0 * Sum(deltas);
    }
  }

  /**
   When every frame lasts at most one tick, a carry that starts below one
   tick stays below one tick, and from an empty carry the tick count equals
   floor(60 · Σelapsed): it lags wall-clock time by less than one tick.
   */
  lemma {:induction false} BoundedDeltasTrackWallClock(carry0: real, deltas: seq<real>)
    requires 0.0 <= carry0 < TickSeconds
    requires WithinOneTick(deltas)
    ensures 0.0 <= Run(carry0, deltas).carry < TickSeconds
    ensures carry0 == 0.0 ==> Run(carry0, deltas).ticks == (60.0 * Sum(deltas)).Floor
    decreases |deltas|
  {
    if |deltas| > 0 {
      BoundedDeltasTrackWallClock(carry0, deltas[..|deltas| - 1]);
    }
    var r := Run(carry0, deltas);
    if carry0 == 0.0 {
      assert r.ticks as real <= 60.0 * Sum(deltas) < r.ticks as real + 1.0;
    }
  }

  /**
   A stall of at least two ticks reports a single tick and keeps the rest:
   the carry after the call is still at least one tick.
   */
  lemma LongStallRetainsExcess(carry: real, elapsed: real)
    requires 0.0 <= carry
    requires elapsed >= 2.0 * TickSeconds
    ensures Step(carry, elapsed).tick
    ensures Step(carry, elapsed).carry >= TickSeconds
    ensures Step(carry, elapsed).carry == carry + elapsed - TickSeconds
  {
  }

  /**
   Tracking of floor(60 · Σelapsed) breaks after a stall: one 10-second frame
   from an empty carry reports one tick where 600 ticks' worth of time passed.
   */
  lemma TenSecondStallTrailsWallClock()
    ensures Run(0.0, [10.0]) == RunResult(10.0 - TickSeconds, 1)
    ensures (60.0 * Sum([10.0])).Floor == 600
  {
    assert [10.0][..0] == [];
  }

  /**
   A frame need only exceed one tick to break that tracking: two frames of
   1.5 ticks each from an empty carry report 2 ticks where 3 ticks' worth of
   time passed.
   */
  lemma TwoLongFramesTrailWallClock()
    ensures Run(0.0, [1.5 * TickSeconds, 1.5 * TickSeconds]).ticks == 2
    ensures (60.0 * Sum([1.5 * TickSeconds, 1.5 * TickSeconds])).Floor == 3
  {
    var frames := [1.5 * TickSeconds, 1.5 * TickSeconds];
    assert frames[..1] == [1.5 * TickSeconds];
    assert frames[..1][..0] == [];
  }

  /**
   The retained excess is paid out one tick per later call: a carry holding
   at least n ticks makes each of the next n calls tick, whatever their
   (non-negative) deltas.
   */
  lemma {:induction false} ExcessDrainsOneTickPerCall(carry0: real, deltas: seq<real>)
    requires carry0 >= |deltas| as real * TickSeconds
    requires NonNegative(deltas)
    ensures Run(carry0, deltas).ticks == |deltas|
    ensures Run(carry0, deltas).carry >= carry0 - |deltas| as real * TickSeconds
    decreases |deltas|
  {
    if |deltas| > 0 {
      var prefix := deltas[..|deltas| - 1];
      assert carry0 >= |prefix| as real * TickSeconds;
      ExcessDrainsOneTickPerCall(carry0, prefix);
    }
  }

  /**
   Frames of exactly one tick each tick on every call and leave any carry,
   however large, exactly where it was.
   */
  lemma {:induction false} OneTickFramesKeepCarry(c: real, deltas: seq<real>)
    requires 0.0 <= c
    requires forall i :: 0 <= i < |deltas| ==> deltas[i] == TickSeconds
    ensures Run(c, deltas) == RunResult(c, |deltas|)
    decreases |deltas|
  {
    if |deltas| > 0 {
      OneTickFramesKeepCarry(c, deltas[..|deltas| - 1]);
    }
  }

  /** Frames of exactly one tick each, from an empty carry, tick on every call. */
  lemma ExactTicksTickEveryCall(deltas: seq<real>)
    requires forall i :: 0 <= i < |deltas| ==> deltas[i] == TickSeconds
    ensures Run(0.0, deltas) == RunResult(0.0, |deltas|)
  {
    OneTickFramesKeepCarry(0.0, deltas);
  }

  /** Running over two stretches of calls in turn is running over their concatenation. */
  lemma {:induction false} RunAppend(carry0: real, a: seq<real>, b: seq<real>)
    ensures Run(carry0, a + b).carry == Run(Run(carry0, a).carry, b).carry
    ensures Run(carry0, a + b).ticks == Run(carry0, a).ticks + Run(Run(carry0, a).carry, b).ticks
    decreases |b|
  {
    if |b| == 0 {
      assert a + b == a;
    } else {
      assert (a + b)[..|a + b| - 1] == a + b[..|b| - 1];
      RunAppend(carry0, a, b[..|b| - 1]);
    }
  }

  /**
   A stall's lag is permanent at a steady 60 Hz: after one 10-second frame,
   any number of frames of exactly one tick keep the carry at 10 − 1/60 s,
   and the ticks stay 599 behind floor(60 · Σelapsed).
   */
  lemma StallLagPersistsAtSixtyHertz(deltas: seq<real>)
    requires forall i :: 0 <= i < |deltas| ==> deltas[i] == TickSeconds
    ensures Run(0.0, [10.0] + deltas) == RunResult(10.0 - TickSeconds, 1 + |deltas|)
    ensures (60.0 * Sum([10.0] + deltas)).Floor - Run(0.0, [10.0] + deltas).ticks == 599
  {
    assert [10.0][..0] == [];
    RunAppend(0.0, [10.0], deltas);
    OneTickFramesKeepCarry(10.0 - TickSeconds, deltas);
    var r := Run(0.0, [10.0] + deltas);
    // Run's conservation clause fixes the sum from the carry and the ticks
    assert Sum([10.0] + deltas) == 10.0 - TickSeconds + (1 + |deltas|) as real * TickSeconds;
    assert 60.0 * Sum([10.0] + deltas) == (600 + |deltas|) as real;
  }
}
