/** runWithRetry, for every behaviour of the attempt, the classifier, the random source. */
module Retry {
  import opened Wrappers
  import opened Numerals
  import opened Backoff

  predicate IsRetryableHttpStatus(status: int) {
    status == 429 || status == 502 || status == 503 || status == 504
  }

  /** The attempt budget from KSERVE_MAX_RETRIES. */
  function EnvAttempts(raw: Option<string>, fallback: int): int {
    match raw
    case None => fallback
    case Some(text) =>
      match Stoi(text)
      case None => fallback
      case Some(retries) => if retries >= 0 then retries + 1 else fallback
  }

  function Budget(policy: RetryPolicy): (n: int)
    ensures n >= 1
  {
    if policy.maxAttempts > 0 then policy.maxAttempts else 1
  }

  /** Attempt `i` (counted from 1) with this result is the last one made. */
  predicate Stops<R>(policy: RetryPolicy, retryable: R -> bool, i: int, result: Result<R>) {
    i >= Budget(policy) || (result.Ok? && !retryable(result.value))
  }

  /** A complete run: every attempt but the last asked for another one, the last did not, and before
      each further attempt came one wait of the prescribed length. */
  ghost predicate RetryRun<R>(policy: RetryPolicy, retryable: R -> bool, results: seq<Result<R>>,
                              units: seq<real>, sleeps: seq<int>) {
    && |results| >= 1 && |units| == |sleeps| == |results| - 1
    && (forall i :: 0 <= i < |results| - 1 ==> !Stops(policy, retryable, i + 1, results[i]))
    && Stops(policy, retryable, |results|, results[|results| - 1])
    && (forall i :: 0 <= i < |sleeps| ==> sleeps[i] == BackoffDelayMs(policy, i + 1, units[i]))
  }

  /** The loop. `attempt(i)` is what the i-th call does, `rng(i)` what the random source then yields. */
  method RunWithRetry<R>(policy: RetryPolicy, attempt: nat -> Result<R>, retryable: R -> bool, rng: nat -> real)
    returns (r: Result<R>, calls: nat, sleeps: seq<int>)
    ensures 1 <= calls <= Budget(policy)
    ensures RetryRun(policy, retryable, Calls(attempt, calls), Units(rng, calls - 1), sleeps)
    ensures r == attempt(calls)
  {
    hide BackoffDelayMs;
    var i := 1;
    sleeps := [];
    while true
      invariant 1 <= i <= Budget(policy)
      invariant |sleeps| == i - 1
      invariant forall k :: 1 <= k < i ==> !Stops(policy, retryable, k, attempt(k))
      invariant forall k :: 0 <= k < |sleeps| ==> sleeps[k] == BackoffDelayMs(policy, k + 1, rng(k + 1))
      decreases Budget(policy) - i
    {
      var last := i >= Budget(policy);
      var result := attempt(i);
      if result.Ok? {
        if last || !retryable(result.value) {
          return result, i, sleeps;
        }
      } else if last {
        return result, i, sleeps;
      }
      sleeps := sleeps + [BackoffDelayMs(policy, i, rng(i))];
      i := i + 1;
    }
  }

  function Calls<R>(attempt: nat -> Result<R>, n: nat): (s: seq<Result<R>>)
    ensures |s| == n && forall i :: 0 <= i < n ==> s[i] == attempt(i + 1)
  {
    seq(n, i requires 0 <= i => attempt(i + 1))
  }

  function Units(rng: nat -> real, n: nat): (s: seq<real>)
    ensures |s| == n && forall i :: 0 <= i < n ==> s[i] == rng(i + 1)
  {
    seq(n, i requires 0 <= i => rng(i + 1))
  }

  /** The contract fixes the run: with the same behaviour of the attempts, no other number of them
      and no other outcome is possible. */
  lemma {:induction false} RunIsUnique<R>(policy: RetryPolicy, retryable: R -> bool, a: seq<Result<R>>, b: seq<Result<R>>,
                                          ua: seq<real>, ub: seq<real>, sa: seq<int>, sb: seq<int>)
    requires RetryRun(policy, retryable, a, ua, sa) && RetryRun(policy, retryable, b, ub, sb)
    requires forall i :: 0 <= i < |a| && i < |b| ==> a[i] == b[i]
    ensures a == b && (ua == ub ==> sa == sb)
  {
    hide BackoffDelayMs;
    NoLonger(policy, retryable, a, b, ua, ub, sa, sb);
    NoLonger(policy, retryable, b, a, ub, ua, sb, sa);
  }

  lemma {:induction false} NoLonger<R>(policy: RetryPolicy, retryable: R -> bool, a: seq<Result<R>>, b: seq<Result<R>>,
                                       ua: seq<real>, ub: seq<real>, sa: seq<int>, sb: seq<int>)
    requires RetryRun(policy, retryable, a, ua, sa) && RetryRun(policy, retryable, b, ub, sb)
    requires forall i :: 0 <= i < |a| && i < |b| ==> a[i] == b[i]
    ensures |b| <= |a|
  {
    hide RetryRun, Stops;
    EndsStopped(policy, retryable, a, ua, sa);
    if |a| < |b| {
      GoesOn(policy, retryable, b, ub, sb, |a| - 1);
    }
  }

  lemma {:induction false} EndsStopped<R>(policy: RetryPolicy, retryable: R -> bool, a: seq<Result<R>>,
                                          units: seq<real>, sleeps: seq<int>)
    requires RetryRun(policy, retryable, a, units, sleeps)
    ensures |a| >= 1 && Stops(policy, retryable, |a|, a[|a| - 1])
  {
    hide BackoffDelayMs;
  }

  lemma {:induction false} GoesOn<R>(policy: RetryPolicy, retryable: R -> bool, a: seq<Result<R>>,
                                     units: seq<real>, sleeps: seq<int>, k: nat)
    requires RetryRun(policy, retryable, a, units, sleeps) && k < |a| - 1
    ensures !Stops(policy, retryable, k + 1, a[k])
  {
    hide BackoffDelayMs;
  }

  /** A run in plain words: all attempts but the last threw or were retryable; there are no more of them than
      allowed, and fewer only when the last one returned something that is not retryable. */
  lemma {:induction false} RunSpelledOut<R>(policy: RetryPolicy, retryable: R -> bool, results: seq<Result<R>>,
                                            units: seq<real>, sleeps: seq<int>)
    requires RetryRun(policy, retryable, results, units, sleeps)
    ensures forall i :: 0 <= i < |results| - 1 ==> results[i].Err? || retryable(results[i].value)
    ensures 1 <= |results| <= if policy.maxAttempts > 1 then policy.maxAttempts else 1
    ensures |results| < policy.maxAttempts ==>
              results[|results| - 1].Ok? && !retryable(results[|results| - 1].value)
  {
    hide BackoffDelayMs;
    RunWithinBudget(policy, retryable, results, units, sleeps);
    forall i | 0 <= i < |results| - 1
      ensures results[i].Err? || retryable(results[i].value)
    {
      assert !Stops(policy, retryable, i + 1, results[i]);
    }
  }

  lemma {:induction false} RunWithinBudget<R>(policy: RetryPolicy, retryable: R -> bool, results: seq<Result<R>>,
                                              units: seq<real>, sleeps: seq<int>)
    requires RetryRun(policy, retryable, results, units, sleeps)
    ensures 1 <= |results| <= Budget(policy)
  {
    assert |results| > Budget(policy) ==> !Stops(policy, retryable, Budget(policy), results[Budget(policy) - 1]);
  }

  function Sum(xs: seq<int>): int {
    if xs == [] then 0 else Sum(xs[..|xs| - 1]) + xs[|xs| - 1]
  }

  /** The time a run spends waiting. */
  lemma {:induction false} TotalWait<R>(policy: RetryPolicy, retryable: R -> bool, results: seq<Result<R>>,
                                        units: seq<real>, sleeps: seq<int>)
    requires RetryRun(policy, retryable, results, units, sleeps) && policy.Sane()
    ensures 0 <= Sum(sleeps) <= (|results| - 1) * policy.maxDelayMs <= (Budget(policy) - 1) * policy.maxDelayMs
  {
    hide BackoffDelayMs;
    RunWithinBudget(policy, retryable, results, units, sleeps);
    forall i | 0 <= i < |sleeps|
      ensures 0 <= sleeps[i] <= policy.maxDelayMs
    {
      DelayMonotone(policy, i + 1, i + 1, units[i], units[i]);
    }
    SumBound(sleeps, policy.maxDelayMs);
    assert (|results| - 1) * policy.maxDelayMs <= (Budget(policy) - 1) * policy.maxDelayMs;
  }

  lemma {:induction false} SumBound(xs: seq<int>, hi: int)
    requires forall i :: 0 <= i < |xs| ==> 0 <= xs[i] <= hi
    ensures 0 <= Sum(xs) <= |xs| * hi
  {
    if xs != [] {
      SumBound(xs[..|xs| - 1], hi);
    }
  }

  /** The capped doubling series base, 2 base, 4 base, ... summed over n terms. */
  function SeriesSum(policy: RetryPolicy, n: nat): int {
    if n == 0 then 0 else SeriesSum(policy, n - 1) + CappedMs(policy, n)
  }

  /** With the random unit in the middle the waits add up to the series. */
  lemma {:induction false} TotalWaitAtHalf<R>(policy: RetryPolicy, retryable: R -> bool, results: seq<Result<R>>,
                                              units: seq<real>, sleeps: seq<int>)
    requires RetryRun(policy, retryable, results, units, sleeps) && policy.Sane()
    requires forall i :: 0 <= i < |units| ==> units[i] == 0.5
    ensures Sum(sleeps) == SeriesSum(policy, |results| - 1)
  {
    hide BackoffDelayMs, CappedMs;
    forall i | 0 <= i < |sleeps|
      ensures sleeps[i] == CappedMs(policy, i + 1)
    {
      DelayAtHalf(policy, i + 1);
    }
    SumOfSeries(policy, sleeps);
  }

  lemma {:induction false} SumOfSeries(policy: RetryPolicy, xs: seq<int>)
    requires forall i :: 0 <= i < |xs| ==> xs[i] == CappedMs(policy, i + 1)
    ensures Sum(xs) == SeriesSum(policy, |xs|)
  {
    hide CappedMs;
    if xs != [] {
      SumOfSeries(policy, xs[..|xs| - 1]);
    }
  }

  /** Unset, unreadable and negative values of it leave the policy as it was. */
  lemma {:induction false} MaxRetriesIgnored(ws: string, text: string, digits: string, rest: string, fallback: int)
    requires AllSpace(ws) && NoNumber(text, 10)
    requires IsToken(digits, 10) && 0 < ValueOf(digits, 10) && Ends(digits, rest, 10)
    ensures EnvAttempts(None, fallback) == fallback
    ensures EnvAttempts(Some(ws + text), fallback) == fallback
    ensures EnvAttempts(Some(ws + ("-" + (digits + rest))), fallback) == fallback
  {
    hide Scan, ValueOf, IsToken, AllSpace, NoNumber, Ends;
    ScansNothing(ws, text, 10);
    ReadsSigned(ws, "-", digits, rest, INT_LIMIT);
  }

  /** KSERVE_MAX_RETRIES counts retries: the value n allows n + 1 attempts, one more than the header
      documentation says, and 0 is not ignored. */
  lemma {:induction false} MaxRetriesCountsRetries(n: nat, fallback: int, policy: RetryPolicy)
    requires n + 1 < INT_LIMIT && policy.maxAttempts == EnvAttempts(Some(Decimal(n)), fallback)
    ensures Budget(policy) == n + 1
  {
    StoiDecimal(n, "");
    assert Decimal(n) + "" == Decimal(n);
  }
}
