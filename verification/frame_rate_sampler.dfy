/**
 The frame-rate sampler of `NeonShooterGame.Update`: it counts calls in the
 current one-second window and, on the first call whose total game time lies
 strictly beyond the window's end, publishes that count as the frame rate and
 opens a new window at the current time. The call that crosses the boundary
 is counted in neither window.
 */
module FrameRateSampler {
  import opened Clock

  /**
   `frameCountThisSecond`, `frameStartSecond` and `frameRate`. Counts are
   unbounded naturals here; the game keeps them in 32-bit ints.
   */
  datatype SamplerState = Sampler(frameCount: nat, windowStart: real, frameRate: nat)

  /** The sampler as the game's static initialisers leave it. */
  const Initial: SamplerState := Sampler(0, 0.0, 0)

  /** Whether a call at game time `total` lies strictly beyond the current window. */
  predicate CrossesWindow(s: SamplerState, total: real)
  {
    total > s.windowStart + WindowSeconds
  }

  /** One sampler update, at total game time `total`. */
  function Sample(s: SamplerState, total: real): (r: SamplerState)
    // boundary call: publish the finished window's count, reset, restart at `total`; not counted
    ensures CrossesWindow(s, total) ==> r == Sampler(0, total, s.frameCount)
    // any other call: counted once, nothing else moves
    ensures !CrossesWindow(s, total) ==> r == s.(frameCount := s.frameCount + 1)
    // the published rate moves only on boundary calls
    ensures r.frameRate != s.frameRate ==> CrossesWindow(s, total)
  {
    if CrossesWindow(s, total) then Sampler(0, total, s.frameCount)
    else s.(frameCount := s.frameCount + 1)
  }

  /** Feeds the total game times of successive calls to the sampler. */
  function Run(s: SamplerState, totals: seq<real>): SamplerState
    decreases |totals|
  {
    if |totals| == 0 then s else Sample(Run(s, totals[..|totals| - 1]), totals[|totals| - 1])
  }

  /** Running the sampler over two stretches of calls is running it over their concatenation. */
  lemma {:induction false} RunAppend(s: SamplerState, a: seq<real>, b: seq<real>)
    ensures Run(s, a + b) == Run(Run(s, a), b)
    decreases |b|
  {
    if |b| == 0 {
      assert a + b == a;
    } else {
      assert (a + b)[..|a + b| - 1] == a + b[..|b| - 1];
      RunAppend(s, a, b[..|b| - 1]);
    }
  }

  /** No call lies beyond the end of the window that `s` has open. */
  predicate WithinWindow(s: SamplerState, totals: seq<real>)
  {
    forall i :: 0 <= i < |totals| ==> totals[i] <= s.windowStart + WindowSeconds
  }

  /**
   Calls inside the open window are each counted once and change nothing
   else: in particular the published rate stays put.
   */
  lemma {:induction false} CountsCallsWithinWindow(s: SamplerState, totals: seq<real>)
    requires WithinWindow(s, totals)
    ensures Run(s, totals) == s.(frameCount := s.frameCount + |totals|)
    decreases |totals|
  {
    if |totals| > 0 {
      CountsCallsWithinWindow(s, totals[..|totals| - 1]);
    }
  }

  /**
   The first call beyond the window publishes exactly the number of calls
   counted in it, resets the count and opens the next window at its own time.
   */
  lemma PublishesCompletedWindow(s: SamplerState, totals: seq<real>, boundary: real)
    requires WithinWindow(s, totals)
    requires CrossesWindow(s, boundary)
    ensures Run(s, totals + [boundary]) == Sampler(0, boundary, s.frameCount + |totals|)
  {
    assert (totals + [boundary])[..|totals|] == totals;
    CountsCallsWithinWindow(s, totals);
  }

  /** Whether `totals` never runs backwards and starts no earlier than `from`. */
  predicate NonDecreasingFrom(from: real, totals: seq<real>)
  {
    && (forall i :: 0 <= i < |totals| ==> from <= totals[i])
    && (forall i, j :: 0 <= i < j < |totals| ==> totals[i] <= totals[j])
  }

  /**
   On a clock that never runs backwards, the window always starts at a clock
   reading already seen (the initial start or one of the calls' times) and
   never ahead of the latest call.
   */
  lemma {:induction false} WindowStartIsPastReading(s: SamplerState, totals: seq<real>)
    requires NonDecreasingFrom(s.windowStart, totals)
    ensures Run(s, totals).windowStart == s.windowStart || Run(s, totals).windowStart in totals
    ensures |totals| > 0 ==> Run(s, totals).windowStart <= totals[|totals| - 1]
    decreases |totals|
  {
    if |totals| > 0 {
      var prefix := totals[..|totals| - 1];
      WindowStartIsPastReading(s, prefix);
      if |prefix| > 0 {
        assert Run(s, prefix).windowStart <= prefix[|prefix| - 1] == totals[|totals| - 2];
      }
    }
  }

  /** Total game times of `n` calls spaced `step` seconds apart, the first one `step` after `start`. */
  function Evenly(start: real, step: real, n: nat): (totals: seq<real>)
    ensures |totals| == n
    ensures forall k :: 0 <= k < n ==> totals[k] == start + (k + 1) as real * step
  {
    seq(n, k => start + (k + 1) as real * step)
  }

  /**
   With calls every `step` seconds and exactly `n` of them fitting in one
   window, the (n+1)-th call after a window opens publishes rate `n`.
   */
  lemma EvenClockPublishesCallsPerWindow(s: SamplerState, step: real, n: nat)
    requires s.frameCount == 0
    requires 0.0 < step
    requires n as real * step <= WindowSeconds < (n + 1) as real * step
    ensures Run(s, Evenly(s.windowStart, step, n + 1))
         == Sampler(0, s.windowStart + (n + 1) as real * step, n)
  {
    var totals := Evenly(s.windowStart, step, n + 1);
    var inside := totals[..n];
    forall i | 0 <= i < |inside|
      ensures inside[i] <= s.windowStart + WindowSeconds
    {
      assert (i + 1) as real * step <= n as real * step by {
        assert (i + 1) as real <= n as real;
        MulMonotone((i + 1) as real, n as real, step);
      }
    }
    assert totals == inside + [totals[n]];
    PublishesCompletedWindow(s, inside, totals[n]);
  }

  /** Multiplying by a non-negative factor preserves order. */
  lemma MulMonotone(a: real, b: real, c: real)
    requires a <= b && 0.0 <= c
    ensures a * c <= b * c
  {
  }

  /**
   The 60 Hz scenario: calls exactly 1/60 s apart from time 0. The 61st call
   (time 61/60, the first beyond 1.0) publishes 60; the 121st call (time
   121/60, exactly one window after 61/60) is still counted; the 122nd call
   publishes 60 again.
   */
  lemma SixtyHertzScenario()
    ensures Run(Initial, Evenly(0.0, TickSeconds, 61)) == Sampler(0, 61.0 * TickSeconds, 60)
    ensures Run(Initial, Evenly(0.0, TickSeconds, 121)) == Sampler(60, 61.0 * TickSeconds, 60)
    ensures Run(Initial, Evenly(0.0, TickSeconds, 122)) == Sampler(0, 122.0 * TickSeconds, 60)
  {
    var first := Evenly(0.0, TickSeconds, 61);
    EvenClockPublishesCallsPerWindow(Initial, TickSeconds, 60);
    var nextWindow := Sampler(0, 61.0 * TickSeconds, 60);

    var all := Evenly(0.0, TickSeconds, 122);
    var second := Evenly(61.0 * TickSeconds, TickSeconds, 61);
    assert all == first + second;
    EvenClockPublishesCallsPerWindow(nextWindow, TickSeconds, 60);
    RunAppend(Initial, first, second);

    var upTo121 := Evenly(0.0, TickSeconds, 121);
    assert upTo121 == first + second[..60];
    RunAppend(Initial, first, second[..60]);
    CountsCallsWithinWindow(nextWindow, second[..60]);
  }
}
