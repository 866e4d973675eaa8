/** Exponential backoff with int64 durations, and the retry loop that waits by it. */
module Retry {
  const SECOND: int := 1_000_000_000
  const DEFAULT_MAX_RETRIES: nat := 3
  const DEFAULT_BASE_DELAY: Duration := SECOND
  const DEFAULT_MAX_DELAY: Duration := 30 * SECOND
  const TWO_62: nat := 0x4000_0000_0000_0000

  type Duration = d: int | -0x8000_0000_0000_0000 <= d < 0x8000_0000_0000_0000

  /** int64 arithmetic wraps around. */
  function Wrap(x: int): Duration {
    (x + 0x8000_0000_0000_0000) % 0x1_0000_0000_0000_0000 - 0x8000_0000_0000_0000
  }

  /** The backoff loop with so many rounds to go. */
  function BackoffFrom(delay: Duration, rounds: nat, maxDelay: Duration): Duration
    decreases rounds
  {
    if rounds == 0 then if delay > maxDelay then maxDelay else delay
    else
      var doubled := Wrap(delay * 2);
      if doubled >= maxDelay then maxDelay else BackoffFrom(doubled, rounds - 1, maxDelay)
  }

  /** However it overflows on the way, the delay never exceeds the maximum. */
  lemma {:induction false} BackoffAtMost(delay: Duration, n: nat, maxDelay: Duration)
    ensures BackoffFrom(delay, n, maxDelay) <= maxDelay
    decreases n
  {
    if n > 0 { BackoffAtMost(Wrap(delay * 2), n - 1, maxDelay); }
  }

  method Backoff(baseDelay: Duration, maxDelay: Duration, attempt: nat) returns (delay: Duration)
    ensures delay == BackoffFrom(baseDelay, attempt, maxDelay)
  {
    delay := baseDelay;
    for i := 0 to attempt
      invariant BackoffFrom(delay, attempt - i, maxDelay) == BackoffFrom(baseDelay, attempt, maxDelay)
    {
      delay := Wrap(delay * 2);
      if delay >= maxDelay {
        return maxDelay;
      }
    }
    if delay > maxDelay {
      return maxDelay;
    }
  }

  /** delay * 2^n. */
  function Doubled(delay: nat, n: nat): nat
    decreases n
  {
    if n == 0 then delay else Doubled(2 * delay, n - 1)
  }

  function Min(a: int, b: int): int { if a <= b then a else b }

  /** The delay is below 2^62, and so is every doubling of it that is below the maximum. */
  ghost predicate Bounded(delay: nat, maxDelay: nat) {
    delay < TWO_62 && forall n: nat :: Doubled(delay, n) < maxDelay ==> Doubled(delay, n) < TWO_62
  }

  /** The first doubling that reaches 2^62. */
  function Top(delay: nat): nat
    requires delay > 0
    decreases TWO_62 - delay
  {
    if delay >= TWO_62 then delay else Top(2 * delay)
  }

  /** Whether delays are bounded can be computed beforehand. */
  lemma {:induction false} BoundedExactly(delay: nat, maxDelay: nat)
    requires delay > 0
    ensures Bounded(delay, maxDelay) <==> delay < TWO_62 && maxDelay <= Top(delay)
    decreases TWO_62 - delay
  {
    if delay < TWO_62 {
      BoundedExactly(2 * delay, maxDelay);
      assert Doubled(delay, 0) == delay && Doubled(delay, 1) == 2 * delay;
      if 2 * delay < TWO_62 {
        BoundedBehind(delay, maxDelay);
      } else {
        assert Top(2 * delay) == 2 * delay;
        forall n: nat | n > 0 ensures Doubled(delay, n) >= 2 * delay {
          DoubledGrows(2 * delay, n - 1);
        }
      }
    }
  }

  lemma {:induction false} TopReaches(delay: nat)
    requires delay > 0
    ensures Top(delay) >= TWO_62
    decreases TWO_62 - delay
  {
    if delay < TWO_62 { TopReaches(2 * delay); }
  }

  lemma BoundedBehind(delay: nat, maxDelay: nat)
    requires 2 * delay < TWO_62
    ensures Bounded(delay, maxDelay) <==> Bounded(2 * delay, maxDelay)
  {
    assert forall n: nat :: Doubled(delay, n + 1) == Doubled(2 * delay, n);
    forall n: nat | n > 0 ensures Doubled(delay, n) == Doubled(2 * delay, n - 1) {
    }
  }

  lemma {:induction false} DoubledGrows(delay: nat, n: nat)
    ensures Doubled(delay, n) >= delay
    ensures Doubled(delay, n + 1) == 2 * Doubled(delay, n)
    decreases n
  {
    if n > 0 { DoubledGrows(2 * delay, n - 1); }
  }

  lemma BoundedStep(delay: nat, maxDelay: nat)
    requires Bounded(delay, maxDelay) && 2 * delay < maxDelay
    ensures Bounded(2 * delay, maxDelay)
  {
    assert Doubled(delay, 1) == 2 * delay;
    forall n: nat | Doubled(2 * delay, n) < maxDelay ensures Doubled(2 * delay, n) < TWO_62 {
      assert Doubled(delay, n + 1) == Doubled(2 * delay, n);
    }
  }

  lemma {:induction false} BackoffIsMin(delay: Duration, maxDelay: Duration, n: nat)
    requires delay > 0 && maxDelay > 0 && Bounded(delay, maxDelay)
    ensures BackoffFrom(delay, n, maxDelay) == Min(Doubled(delay, n), maxDelay)
    decreases n
  {
    if n > 0 {
      assert Wrap(delay * 2) == 2 * delay;
      if 2 * delay < maxDelay {
        BoundedStep(delay, maxDelay);
        BackoffIsMin(2 * delay, maxDelay, n - 1);
      } else {
        DoubledGrows(2 * delay, n - 1);
      }
    }
  }

  /** Where a doubling overflows, the loop goes on with a negative delay. */
  lemma {:induction false} BackoffOverflows(delay: Duration, maxDelay: Duration, n: nat)
    requires 0 < delay < TWO_62 && maxDelay > 0 && n > 0
    requires TWO_62 <= Doubled(delay, n) < maxDelay
    ensures exists m: nat :: BackoffFrom(delay, m, maxDelay) < 0
    decreases n
  {
    DoubledGrows(2 * delay, n - 1);
    var next: Duration := 2 * delay;
    assert Wrap(delay * 2) == next < maxDelay;
    if next >= TWO_62 {
      assert Wrap(next * 2) < 0;
      assert BackoffFrom(Wrap(next * 2), 0, maxDelay) < 0;
      assert BackoffFrom(next, 1, maxDelay) < 0;
      assert BackoffFrom(delay, 2, maxDelay) < 0;
    } else {
      BackoffOverflows(next, maxDelay, n - 1);
      var m: nat :| BackoffFrom(next, m, maxDelay) < 0;
      assert BackoffFrom(delay, m + 1, maxDelay) == BackoffFrom(next, m, maxDelay);
    }
  }

  /** Backoff is min(base * 2^n, max) for every attempt exactly when the base is below
      2^62 and the maximum does not exceed the first doubling that reaches 2^62; a
      maximum of at most 2^62 never does. */
  lemma BackoffExact(delay: Duration, maxDelay: Duration)
    requires delay > 0 && maxDelay > 0
    ensures Bounded(delay, maxDelay) <==> forall n: nat :: BackoffFrom(delay, n, maxDelay) == Min(Doubled(delay, n), maxDelay)
    ensures Bounded(delay, maxDelay) <==> delay < TWO_62 && maxDelay <= Top(delay)
    ensures Top(delay) >= TWO_62
  {
    BoundedExactly(delay, maxDelay);
    TopReaches(delay);
    if Bounded(delay, maxDelay) {
      forall n: nat { BackoffIsMin(delay, maxDelay, n); }
    } else {
      var m := NegativeBackoff(delay, maxDelay);
      DoubledGrows(delay, m);
      assert BackoffFrom(delay, m, maxDelay) != Min(Doubled(delay, m), maxDelay);
    }
  }

  lemma NegativeBackoff(delay: Duration, maxDelay: Duration) returns (m: nat)
    requires delay > 0 && maxDelay > 0 && !Bounded(delay, maxDelay)
    ensures BackoffFrom(delay, m, maxDelay) < 0
  {
    if delay >= TWO_62 {
      assert Wrap(delay * 2) < 0;
      assert BackoffFrom(Wrap(delay * 2), 0, maxDelay) < 0;
      m := 1;
    } else {
      var n: nat :| TWO_62 <= Doubled(delay, n) < maxDelay;
      BackoffOverflows(delay, maxDelay, n);
      m :| BackoffFrom(delay, m, maxDelay) < 0;
    }
  }

  /** A configuration that overflows: from 2^61 ns up to the greatest maximum, the
      second doubling is the least duration. */
  lemma OverflowingConfig()
    ensures var base, max: Duration := TWO_62 / 2, 0x7fff_ffff_ffff_ffff;
            BackoffFrom(base, 2, max) == -0x8000_0000_0000_0000 && Top(base) < max
  {
    var base, max: Duration := TWO_62 / 2, 0x7fff_ffff_ffff_ffff;
    assert Wrap(base * 2) == TWO_62 && Wrap(TWO_62 * 2) == -0x8000_0000_0000_0000;
    assert BackoffFrom(base, 2, max) == BackoffFrom(TWO_62, 1, max) == BackoffFrom(-0x8000_0000_0000_0000, 0, max);
    assert Top(base) == Top(TWO_62) == TWO_62;
  }

  /** Later attempts never wait less. */
  lemma BackoffMonotone(delay: Duration, maxDelay: Duration, n: nat)
    requires delay > 0 && maxDelay > 0 && Bounded(delay, maxDelay)
    ensures 0 < BackoffFrom(delay, n, maxDelay) <= BackoffFrom(delay, n + 1, maxDelay) <= maxDelay
  {
    BackoffIsMin(delay, maxDelay, n);
    BackoffIsMin(delay, maxDelay, n + 1);
    DoubledGrows(delay, n);
  }

  // The loop.

  datatype Attempt = Succeeded | Failed(retryable: bool, error: string)

  datatype Config = Config(maxRetries: int, baseDelay: Duration, maxDelay: Duration)

  function WithDefaults(c: Config): Config {
    Config(if c.maxRetries <= 0 then DEFAULT_MAX_RETRIES else c.maxRetries,
           if c.baseDelay <= 0 then DEFAULT_BASE_DELAY else c.baseDelay,
           if c.maxDelay <= 0 then DEFAULT_MAX_DELAY else c.maxDelay)
  }

  function Sum(waits: seq<int>): int {
    if waits == [] then 0 else Sum(waits[..|waits| - 1]) + waits[|waits| - 1]
  }

  datatype Outcome = Done | GaveUp(error: string) | Cancelled

  lemma {:induction false} SumBetween(waits: seq<int>, most: int, positive: bool)
    requires forall k | 0 <= k < |waits| :: waits[k] <= most
    requires positive ==> forall k | 0 <= k < |waits| :: waits[k] >= 0
    ensures Sum(waits) <= |waits| * most && (positive ==> 0 <= Sum(waits))
  {
    if waits != [] {
      SumBetween(waits[..|waits| - 1], most, positive);
      assert |waits| * most == (|waits| - 1) * most + most;
    }
  }

  /** What so many waits by the backoff sum to. */
  lemma WaitsBetween(waits: seq<int>, retries: nat, base: Duration, most: Duration)
    requires |waits| <= retries && base > 0 && most > 0
    requires forall k | 0 <= k < |waits| :: waits[k] == BackoffFrom(base, k, most)
    ensures Sum(waits) <= retries * most && (Bounded(base, most) ==> 0 <= Sum(waits))
  {
    forall k | 0 <= k < |waits|
      ensures waits[k] <= most && (Bounded(base, most) ==> waits[k] >= 0)
    {
      BackoffAtMost(base, k, most);
      if Bounded(base, most) { BackoffMonotone(base, most, k); }
    }
    SumBetween(waits, most, Bounded(base, most));
    assert |waits| * most <= retries * most;
  }

  /** `operation` gives the outcome of each call, `cancelled` whether the context ends
      during each wait. The loop stops at the first call that succeeds, fails for good, is
      the last retry or is waited for in vain; without a configuration there are 3 retries
      with waits from 1 s to 30 s. Its k-th wait is backoff(k), and the waits sum to at most
      retries * most, and to no less than nothing if delays are bounded. */
  method Retry(config: Config, operation: nat -> Attempt, cancelled: nat -> bool)
    returns (outcome: Outcome, calls: nat, waits: seq<int>)
    ensures var retries := if config.maxRetries <= 0 then 3 else config.maxRetries;
            var base: Duration := if config.baseDelay <= 0 then 1_000_000_000 else config.baseDelay;
            var most: Duration := if config.maxDelay <= 0 then 30_000_000_000 else config.maxDelay;
      && 1 <= calls <= retries + 1 && |waits| == (if outcome.Cancelled? then calls else calls - 1)
      && (forall k | 0 <= k < |waits| :: waits[k] == BackoffFrom(base, k, most))
      && (forall k | 0 <= k < calls - 1 :: operation(k).Failed? && operation(k).retryable && !cancelled(k))
      && (var last := operation(calls - 1);
          outcome == if last.Succeeded? then Done
                     else if !last.retryable || calls == retries + 1 then GaveUp(last.error)
                     else Cancelled)
      && (outcome.Cancelled? ==> cancelled(calls - 1))
      && Sum(waits) <= retries * most && (Bounded(base, most) ==> 0 <= Sum(waits))
  {
    var c := WithDefaults(config);
    calls, waits := 0, [];
    while true
      invariant calls == |waits| <= c.maxRetries
      invariant forall k | 0 <= k < |waits| :: waits[k] == BackoffFrom(c.baseDelay, k, c.maxDelay)
      invariant forall k | 0 <= k < calls :: operation(k).Failed? && operation(k).retryable && !cancelled(k)
      decreases c.maxRetries - calls
    {
      hide Bounded, Sum, BackoffFrom;
      WaitsBetween(waits, c.maxRetries, c.baseDelay, c.maxDelay);
      var result := operation(calls);
      calls := calls + 1;
      if result.Succeeded? { return Done, calls, waits; }
      if !result.retryable || calls - 1 >= c.maxRetries { return GaveUp(result.error), calls, waits; }
      var delay := Backoff(c.baseDelay, c.maxDelay, calls - 1);
      waits := waits + [delay];
      if cancelled(calls - 1) {
        WaitsBetween(waits, c.maxRetries, c.baseDelay, c.maxDelay);
        return Cancelled, calls, waits;
      }
    }
  }
}
