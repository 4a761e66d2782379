/**
 Webhook retry delays: exponential backoff with a clamp and an early exit. Durations are
 nanoseconds; the float64 multiplier is a real, and the conversion back to a duration
 truncates toward zero.
 */
module Backoff {
  import opened Wrappers

  datatype RetryPolicy = RetryPolicy(maxRetries: int, initialInterval: int, maxInterval: int, multiplier: real)

  /** `time.Duration(x)` for a floating-point x. */
  function Truncate(x: real): int {
    if x >= 0.0 then x.Floor else -((-x).Floor)
  }

  /** The conversion drops the fraction and so never leaves the side of zero it is on. */
  lemma TruncateTowardZero(x: real)
    ensures x >= 0.0 ==> Truncate(x) as real <= x < Truncate(x) as real + 1.0
    ensures x <= 0.0 ==> Truncate(x) as real - 1.0 < x <= Truncate(x) as real
  {
  }

  function Grow(interval: int, multiplier: real): int {
    Truncate(interval as real * multiplier)
  }

  /** The interval after `n` multiplications, never clamped. */
  function Unclamped(p: RetryPolicy, n: nat): int {
    if n == 0 then p.initialInterval else Grow(Unclamped(p, n - 1), p.multiplier)
  }

  function Min(a: int, b: int): int {
    if a <= b then a else b
  }

  /** The delay before the next try, after `attempt` tries: the loop's meaning for every policy. The first
      interval to exceed the maximum ends the growth. */
  function Delay(p: RetryPolicy, attempt: int): int {
    if attempt <= 1 then p.initialInterval
    else if exists k :: 1 <= k < attempt && Unclamped(p, k) > p.maxInterval then p.maxInterval
    else Unclamped(p, attempt - 1)
  }

  class WebhookDelivery {
    var attempt: int
    var nextRetry: Option<int>

    constructor (attempt: int)
      ensures this.attempt == attempt && nextRetry == None
    {
      this.attempt, nextRetry := attempt, None;
    }

    method ScheduleRetry(p: RetryPolicy, now: int)
      modifies this`nextRetry
      ensures nextRetry == if attempt >= p.maxRetries then old(nextRetry) else Some(now + Delay(p, attempt))
    {
      if attempt >= p.maxRetries {
        return;
      }
      var interval := p.initialInterval;
      var i := 1;
      while i < attempt
        invariant 1 <= i && (i <= attempt || i == 1)
        invariant interval == Unclamped(p, i - 1)
        invariant nextRetry == old(nextRetry)
        invariant forall k :: 1 <= k < i ==> Unclamped(p, k) <= p.maxInterval
      {
        interval := Grow(interval, p.multiplier);
        if interval > p.maxInterval {
          assert Unclamped(p, i) > p.maxInterval;
          interval := p.maxInterval;
          break;
        }
        i := i + 1;
      }
      nextRetry := Some(now + interval);
    }
  }

  lemma GrowsUp(interval: int, multiplier: real)
    requires interval >= 0 && multiplier >= 1.0
    ensures Grow(interval, multiplier) >= interval
  {
    var x := interval as real * multiplier;
    assert x - interval as real == interval as real * (multiplier - 1.0);
    assert x >= interval as real;
  }

  lemma {:induction false} UnclampedGrows(p: RetryPolicy, m: nat, n: nat)
    requires p.initialInterval >= 0 && p.multiplier >= 1.0 && m <= n
    ensures 0 <= Unclamped(p, m) <= Unclamped(p, n)
  {
    if n > 0 {
      UnclampedGrows(p, if m == n then m - 1 else m, n - 1);
      GrowsUp(Unclamped(p, n - 1), p.multiplier);
    }
  }

  function Power(k: nat, n: nat): int {
    if n == 0 then 1 else Power(k, n - 1) * k
  }

  lemma {:induction false} RealProduct(i: int, k: nat)
    ensures i as real * k as real == (i * k) as real
  {
    if k > 0 {
      RealProduct(i, k - 1);
      var x, y := i as real, (k - 1) as real;
      assert k as real == y + 1.0 && x * (y + 1.0) == x * y + x;
      assert i * k == i * (k - 1) + i;
    }
  }

  lemma GrowWhole(i: int, k: nat)
    ensures Grow(i, k as real) == i * k
  {
    RealProduct(i, k);
    TruncateTowardZero((i * k) as real);
  }

  /** With a whole multiplier the free growth is the power. */
  lemma {:induction false} WholeMultiplier(p: RetryPolicy, k: nat, n: nat)
    requires p.multiplier == k as real
    ensures Unclamped(p, n) == p.initialInterval * Power(k, n)
  {
    if n > 0 {
      WholeMultiplier(p, k, n - 1);
      GrowWhole(Unclamped(p, n - 1), k);
      hide Grow;
      Associative(p.initialInterval, Power(k, n - 1), k);
    }
  }

  lemma Associative(a: int, b: int, c: int)
    ensures a * b * c == a * (b * c)
  {
  }

  /** Closed form, from the second try on: clamping inside the loop and leaving early gives the minimum of the
      maximum interval and the freely grown one. */
  lemma ClosedForm(p: RetryPolicy, attempt: int)
    requires p.initialInterval >= 0 && p.multiplier >= 1.0 && attempt >= 2
    ensures Delay(p, attempt) == Min(p.maxInterval, Unclamped(p, attempt - 1))
  {
    if k :| 1 <= k < attempt && Unclamped(p, k) > p.maxInterval {
      UnclampedGrows(p, k, attempt - 1);
    }
  }

  /** The delays never shrink from one try to the next, exactly if the first interval does not exceed the maximum:
      the first delay alone is not clamped. */
  lemma MonotoneIff(p: RetryPolicy)
    requires p.initialInterval >= 0 && p.multiplier >= 1.0
    ensures p.initialInterval <= p.maxInterval <==>
            forall a, b :: 1 <= a <= b ==> Delay(p, a) <= Delay(p, b)
  {
    if p.initialInterval <= p.maxInterval {
      forall a, b | 1 <= a <= b ensures Delay(p, a) <= Delay(p, b) {
        UnclampedGrows(p, a - 1, b - 1);
        UnclampedGrows(p, 0, b - 1);
        if a >= 2 {
          ClosedForm(p, a);
        }
        if b >= 2 {
          ClosedForm(p, b);
        }
      }
    } else {
      ClosedForm(p, 2);
      assert Delay(p, 1) > Delay(p, 2);
    }
  }

  lemma NonNegative(x: real, y: real)
    requires x >= 0.0 && y >= 0.0
    ensures x * y >= 0.0
  {
  }

  lemma GrowsDown(interval: int, multiplier: real)
    requires interval >= 0 && 0.0 <= multiplier < 1.0
    ensures 0 <= Grow(interval, multiplier) <= interval
  {
    var x := interval as real * multiplier;
    assert interval as real - x == interval as real * (1.0 - multiplier);
    NonNegative(interval as real, 1.0 - multiplier);
    NonNegative(interval as real, multiplier);
    assert x >= 0.0;
  }

  lemma {:induction false} UnclampedShrinks(p: RetryPolicy, m: nat, n: nat)
    requires p.initialInterval >= 0 && 0.0 <= p.multiplier < 1.0 && m <= n
    ensures 0 <= Unclamped(p, n) <= Unclamped(p, m)
  {
    if n > 0 {
      UnclampedShrinks(p, if m == n then m - 1 else m, n - 1);
      GrowsDown(Unclamped(p, n - 1), p.multiplier);
    }
  }

  /** With a multiplier below one, the closed form holds exactly if the first grown interval is within the maximum or
      the freely shrinking one has not dropped below it: otherwise the early exit has stuck at the maximum. */
  lemma ShrinkingClosedFormIff(p: RetryPolicy, attempt: int)
    requires p.initialInterval >= 0 && 0.0 <= p.multiplier < 1.0 && attempt >= 2
    ensures Delay(p, attempt) == Min(p.maxInterval, Unclamped(p, attempt - 1)) <==>
            Unclamped(p, 1) <= p.maxInterval || Unclamped(p, attempt - 1) >= p.maxInterval
  {
    UnclampedShrinks(p, 1, attempt - 1);
    if k :| 1 <= k < attempt && Unclamped(p, k) > p.maxInterval {
      UnclampedShrinks(p, 1, k);
    } else {
      assert Unclamped(p, 1) <= p.maxInterval;
    }
  }

  /** A policy for which it fails. */
  lemma ShrinkingPolicySticks()
    ensures var p := RetryPolicy(9, 100, 10, 0.5);
            Delay(p, 5) == 10 && Min(p.maxInterval, Unclamped(p, 4)) == 6
  {
    var p := RetryPolicy(9, 100, 10, 0.5);
    assert Unclamped(p, 1) == 50;
    assert Unclamped(p, 2) == 25;
    assert Unclamped(p, 3) == 12;
    assert Unclamped(p, 4) == 6;
  }
}
