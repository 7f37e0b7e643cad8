/** backoffDelayMs over exact reals: exponential growth, cap, jitter and rounding. */
module Backoff {
  import opened Powers

  datatype RetryPolicy = RetryPolicy(maxAttempts: int, baseDelayMs: int, maxDelayMs: int, jitter: real) {
    predicate Sane() {
      baseDelayMs > 0 && maxDelayMs > 0 && 0.0 <= jitter <= 1.0
    }
  }

  /** Multiplication under a name: proofs that do not need its laws can leave it alone. */
  function Times(x: real, y: real): real {
    x * y
  }

  function Min(x: real, y: real): real {
    if y < x then y else x
  }

  function Clamp(x: real, lo: real, hi: real): real {
    if x < lo then lo else if hi < x then hi else x
  }

  /** std::lround: to the nearest integer, halves away from zero. */
  function Lround(x: real): int {
    if x >= 0.0 then (x + 0.5).Floor else -((0.5 - x).Floor)
  }

  /** The exponential term base * 2^(attempt-1), capped. */
  function Capped(policy: RetryPolicy, attempt: int): real
    requires attempt >= 1
  {
    Min(Times(policy.baseDelayMs as real, Pow2(attempt - 1) as real), policy.maxDelayMs as real)
  }

  function Factor(jitter: real, unit: real): real {
    1.0 - jitter + Times(Clamp(unit, 0.0, 1.0) * 2.0, jitter)
  }

  function BackoffDelayMs(policy: RetryPolicy, attempt: int, unit: real): int {
    if attempt < 1 then 0
    else Rounded(Times(Capped(policy, attempt), Factor(policy.jitter, unit)), policy.maxDelayMs)
  }

  lemma {:induction false} LroundMonotone(x: real, y: real)
    requires x <= y
    ensures Lround(x) <= Lround(y)
  {
  }

  lemma {:induction false} LroundExact(n: int)
    ensures Lround(n as real) == n
  {
  }

  lemma {:induction false} ProductMonotone(a: real, b: real, c: real, d: real)
    requires 0.0 <= a <= b && 0.0 <= c <= d
    ensures 0.0 <= Times(a, c) <= Times(b, d)
  {
    assert a * c <= b * c;
    assert b * c <= b * d;
  }

  lemma {:induction false} TimesOne(x: real)
    ensures Times(x, 1.0) == x
  {
  }

  lemma {:induction false} CappedMonotone(policy: RetryPolicy, a: int, b: int)
    requires policy.Sane() && 1 <= a <= b
    ensures 0.0 < Capped(policy, a) <= Capped(policy, b) <= policy.maxDelayMs as real
  {
    Pow2Monotone(a - 1, b - 1);
    ProductMonotone(policy.baseDelayMs as real, policy.baseDelayMs as real, Pow2(a - 1) as real, Pow2(b - 1) as real);
    ProductMonotone(1.0, policy.baseDelayMs as real, 1.0, Pow2(a - 1) as real);
    assert Times(1.0, 1.0) == 1.0;
  }

  lemma {:induction false} Spread(x: real, y: real, j: real)
    requires 0.0 <= x <= y <= 1.0 && 0.0 <= j <= 1.0
    ensures 0.0 <= Times(x * 2.0, j) <= Times(y * 2.0, j) <= j + j
  {
    assert Times(2.0, j) == j + j;
    ProductMonotone(x * 2.0, y * 2.0, j, j);
    ProductMonotone(y * 2.0, 2.0, j, j);
  }

  lemma {:induction false} FactorMonotone(jitter: real, u: real, v: real)
    requires 0.0 <= jitter <= 1.0 && u <= v
    ensures 1.0 - jitter <= Factor(jitter, u) <= Factor(jitter, v) <= 1.0 + jitter
  {
    hide Times;
    Spread(Clamp(u, 0.0, 1.0), Clamp(v, 0.0, 1.0), jitter);
  }

  /** The last step of backoffDelayMs: clamp to the maximum and round. */
  function Rounded(x: real, maxDelay: int): int {
    Lround(Clamp(x, 0.0, maxDelay as real))
  }

  lemma {:induction false} RoundedMonotone(x: real, y: real, maxDelay: int)
    requires x <= y && 0 <= maxDelay
    ensures 0 <= Rounded(x, maxDelay) <= Rounded(y, maxDelay) <= maxDelay
  {
    hide Lround;
    var hi := maxDelay as real;
    LroundExact(0);
    LroundExact(maxDelay);
    assert 0 as real == 0.0;
    LroundMonotone(0.0, Clamp(x, 0.0, hi));
    LroundMonotone(Clamp(x, 0.0, hi), Clamp(y, 0.0, hi));
    LroundMonotone(Clamp(y, 0.0, hi), hi);
  }

  /** The delay never exceeds the maximum, grows with the attempt number and with the random unit. */
  lemma {:induction false} DelayMonotone(policy: RetryPolicy, a: int, b: int, u: real, v: real)
    requires policy.Sane() && a <= b && u <= v
    ensures 0 <= BackoffDelayMs(policy, a, u) <= BackoffDelayMs(policy, b, v) <= policy.maxDelayMs
  {
    hide Rounded, Factor, Capped, Times;
    if b >= 1 {
      var from := if a < 1 then b else a;
      CappedMonotone(policy, from, b);
      FactorMonotone(policy.jitter, u, v);
      ProductMonotone(Capped(policy, from), Capped(policy, b), Factor(policy.jitter, u), Factor(policy.jitter, v));
      RoundedMonotone(Times(Capped(policy, from), Factor(policy.jitter, u)), Times(Capped(policy, b), Factor(policy.jitter, v)),
                      policy.maxDelayMs);
    }
  }

  /** The jitter band around the capped term; its ends are reached at the ends of the unit range. */
  lemma {:induction false} DelayBand(policy: RetryPolicy, attempt: int, unit: real)
    requires policy.Sane() && attempt >= 1
    ensures Lround(Times(Capped(policy, attempt), 1.0 - policy.jitter)) <= BackoffDelayMs(policy, attempt, unit)
    ensures BackoffDelayMs(policy, attempt, unit) <=
            Lround(Min(Times(Capped(policy, attempt), 1.0 + policy.jitter), policy.maxDelayMs as real))
    ensures unit <= 0.0 ==>
              BackoffDelayMs(policy, attempt, unit) == Lround(Times(Capped(policy, attempt), 1.0 - policy.jitter))
    ensures unit >= 1.0 ==>
              BackoffDelayMs(policy, attempt, unit) ==
              Lround(Min(Times(Capped(policy, attempt), 1.0 + policy.jitter), policy.maxDelayMs as real))
  {
    hide Rounded, Factor, Capped, Lround, Times;
    var c, f := Capped(policy, attempt), Factor(policy.jitter, unit);
    var low, high := Times(c, 1.0 - policy.jitter), Times(c, 1.0 + policy.jitter);
    CappedMonotone(policy, attempt, attempt);
    FactorMonotone(policy.jitter, unit, unit);
    FactorEnds(policy.jitter, unit);
    ProductMonotone(c, c, 1.0 - policy.jitter, f);
    ProductMonotone(c, c, f, 1.0 + policy.jitter);
    ProductMonotone(c, policy.maxDelayMs as real, 1.0 - policy.jitter, 1.0);
    TimesOne(policy.maxDelayMs as real);
    RoundedMonotone(low, Times(c, f), policy.maxDelayMs);
    RoundedMonotone(Times(c, f), high, policy.maxDelayMs);
    RoundedInside(low, policy.maxDelayMs);
    RoundedCapped(high, policy.maxDelayMs);
  }

  lemma {:induction false} RoundedInside(x: real, maxDelay: int)
    requires 0.0 <= x <= maxDelay as real
    ensures Rounded(x, maxDelay) == Lround(x)
  {
    hide Lround;
  }

  lemma {:induction false} RoundedCapped(x: real, maxDelay: int)
    requires 0.0 <= x && 0 <= maxDelay
    ensures Rounded(x, maxDelay) == Lround(Min(x, maxDelay as real))
  {
    hide Lround;
  }

  lemma {:induction false} FactorEnds(jitter: real, unit: real)
    ensures unit <= 0.0 ==> Factor(jitter, unit) == 1.0 - jitter
    ensures unit >= 1.0 ==> Factor(jitter, unit) == 1.0 + jitter
    ensures unit == 0.5 ==> Factor(jitter, unit) == 1.0
  {
  }

  /** The doubling series, capped, in whole milliseconds. */
  function CappedMs(policy: RetryPolicy, attempt: int): int
    requires attempt >= 1
  {
    var term := policy.baseDelayMs * Pow2(attempt - 1);
    if policy.maxDelayMs < term then policy.maxDelayMs else term
  }

  /** Half way, the jitter cancels out. */
  lemma {:induction false} DelayAtHalf(policy: RetryPolicy, attempt: int)
    requires policy.Sane() && attempt >= 1
    ensures BackoffDelayMs(policy, attempt, 0.5) == CappedMs(policy, attempt)
  {
    hide Lround, Factor;
    FactorEnds(policy.jitter, 0.5);
    CappedMonotone(policy, attempt, attempt);
    assert (policy.baseDelayMs * Pow2(attempt - 1)) as real == policy.baseDelayMs as real * Pow2(attempt - 1) as real;
    LroundExact(CappedMs(policy, attempt));
  }

  /** From 1 - jitter to 1 + jitter as the unit goes from 0 to 1. */
  function SpreadBy(jitter: real, unit: real): real {
    var u := if unit < 0.0 then 0.0 else if unit > 1.0 then 1.0 else unit;
    1.0 - jitter + 2.0 * u * jitter
  }

  /** What is rounded: the doubling term, capped, spread by the jitter, and kept between 0 and the maximum. */
  function Unrounded(policy: RetryPolicy, attempt: int, unit: real): real
    requires attempt >= 1
  {
    var spread := CappedMs(policy, attempt) as real * SpreadBy(policy.jitter, unit);
    if spread < 0.0 then 0.0 else if spread > policy.maxDelayMs as real then policy.maxDelayMs as real else spread
  }

  /** The delay is the nearest whole number of milliseconds, the greater one half way; before the first
      attempt there is none. */
  lemma {:induction false} DelayIsNearest(policy: RetryPolicy, attempt: int, unit: real)
    requires policy.Sane()
    ensures attempt < 1 ==> BackoffDelayMs(policy, attempt, unit) == 0
    ensures attempt >= 1 ==>
              -0.5 < BackoffDelayMs(policy, attempt, unit) as real - Unrounded(policy, attempt, unit) <= 0.5
  {
    if attempt >= 1 {
      hide Lround, Factor, Capped, CappedMs, Clamp;
      UnroundedIs(policy, attempt, unit);
      LroundNearest(Unrounded(policy, attempt, unit));
    }
  }

  lemma {:induction false} UnroundedIs(policy: RetryPolicy, attempt: int, unit: real)
    requires policy.Sane() && attempt >= 1
    ensures Unrounded(policy, attempt, unit) >= 0.0
    ensures BackoffDelayMs(policy, attempt, unit) == Lround(Unrounded(policy, attempt, unit))
  {
    hide Lround, Factor, Capped, CappedMs;
    CappedWhole(policy, attempt);
    FactorIs(policy.jitter, unit);
    hide SpreadBy;
    var x := CappedMs(policy, attempt) as real * SpreadBy(policy.jitter, unit);
    assert Times(Capped(policy, attempt), Factor(policy.jitter, unit)) == x;
    ClampIs(x, policy.maxDelayMs);
    assert BackoffDelayMs(policy, attempt, unit) == Rounded(x, policy.maxDelayMs);
    assert Rounded(x, policy.maxDelayMs) == Lround(Clamp(x, 0.0, policy.maxDelayMs as real));
    assert Unrounded(policy, attempt, unit) == Clamp(x, 0.0, policy.maxDelayMs as real);
  }

  lemma {:induction false} ClampIs(x: real, hi: int)
    requires hi >= 0
    ensures Clamp(x, 0.0, hi as real) == (if x < 0.0 then 0.0 else if x > hi as real then hi as real else x) >= 0.0
  {
  }

  lemma {:induction false} LroundNearest(x: real)
    requires x >= 0.0
    ensures -0.5 < Lround(x) as real - x <= 0.5
  {
  }

  lemma {:induction false} CappedWhole(policy: RetryPolicy, attempt: int)
    requires attempt >= 1
    ensures Capped(policy, attempt) == CappedMs(policy, attempt) as real
  {
    assert (policy.baseDelayMs * Pow2(attempt - 1)) as real == policy.baseDelayMs as real * Pow2(attempt - 1) as real;
  }

  lemma {:induction false} FactorIs(jitter: real, unit: real)
    ensures Factor(jitter, unit) == SpreadBy(jitter, unit)
  {
  }
}
