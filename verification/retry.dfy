/** The transient-failure retry policy of the provider adapter (`runWithRetry`).
    A provider call is modelled as the stream of outcomes its successive attempts
    would produce; the waits between attempts are recorded instead of slept. */
module Retry {
  import opened Wrappers
  import opened Domain
  import Text

  /** What one attempt of the wrapped call does: return a value or throw. */
  datatype Outcome<+T> = Ok(value: T) | Err(error: ApiError)

  /** The observable run of a retried call: the final result, how many times the
      call was attempted, and the wait before each retry, in milliseconds. */
  datatype Call<+T> = Call(result: Result<T, ApiError>, attempts: nat, delays: seq<nat>)

  /** Budgets used by the adapter: text calls and image calls. */
  const TextRetries: nat := 3
  const TextBaseDelay: nat := 2000
  const ImageRetries: nat := 2
  const ImageBaseDelay: nat := 4000

  /** Status 503, or a message mentioning "overloaded". */
  predicate IsOverloaded(e: ApiError) {
    e.status == Some(503) || Text.Contains(e.message, "overloaded")
  }

  /** Status 429. */
  predicate IsRateLimited(e: ApiError) {
    e.status == Some(429)
  }

  predicate IsTransient(e: ApiError) {
    IsOverloaded(e) || IsRateLimited(e)
  }

  predicate IsTransientFailure<T>(o: Outcome<T>) {
    o.Err? && IsTransient(o.error)
  }

  /** What the caller sees of a single attempt. */
  function Settle<T>(o: Outcome<T>): Result<T, ApiError> {
    match o
    case Ok(v) => Success(v)
    case Err(e) => Failure(e)
  }

  function Pow2(k: nat): (p: nat)
    ensures 1 <= p
  {
    if k == 0 then 1 else 2 * Pow2(k - 1)
  }

  /** The wait before retry i+1 of a call whose first wait is `delay`: the delay
      doubles on every retry. */
  function Backoff(delay: nat, i: nat): nat
    decreases i
  {
    if i == 0 then delay else Backoff(delay * 2, i - 1)
  }

  /** The i-th wait is delay·2^i. */
  lemma {:induction false} BackoffIsDoubling(delay: nat, i: nat)
    ensures Backoff(delay, i) == delay * Pow2(i)
    decreases i
  {
    if i > 0 {
      BackoffIsDoubling(delay * 2, i - 1);
      Regroup(delay, 2, Pow2(i - 1));
    }
  }

  function Sum(xs: seq<nat>): nat
    decreases |xs|
  {
    if |xs| == 0 then 0 else xs[0] + Sum(xs[1..])
  }

  /** `runWithRetry(fn, retries, delay)`: attempt `fn`; on a transient failure with
      budget left, wait `delay`, then retry with one retry fewer and twice the delay;
      otherwise settle with the attempt's outcome. `attempt(i)` is the outcome of
      the (i+1)-th attempt. */
  function RunWithRetry<T>(attempt: nat -> Outcome<T>, retries: nat, delay: nat): (c: Call<T>)
    ensures 1 <= c.attempts <= retries + 1
    ensures |c.delays| == c.attempts - 1
    ensures forall i :: 0 <= i < |c.delays| ==> c.delays[i] == Backoff(delay, i)
    ensures forall i :: 0 <= i < c.attempts - 1 ==> IsTransientFailure(attempt(i))
    ensures c.result == Settle(attempt(c.attempts - 1))
    ensures IsTransientFailure(attempt(c.attempts - 1)) ==> c.attempts == retries + 1
    decreases retries
  {
    match attempt(0)
    case Ok(v) => Call(Success(v), 1, [])
    case Err(e) =>
      if retries > 0 && IsTransient(e) then
        var next := Shift(attempt);
        var rest := RunWithRetry(next, retries - 1, delay * 2);
        ShiftedFailures(attempt, next, rest.attempts - 1);
        PrependBackoff(delay, rest.delays);
        Call(rest.result, rest.attempts + 1, [delay] + rest.delays)
      else
        Call(Failure(e), 1, [])
  }

  /** The attempts after the first. */
  function Shift<T>(attempt: nat -> Outcome<T>): nat -> Outcome<T> {
    (i: nat) => attempt(i + 1)
  }

  /** Failures of the shifted stream are failures of the original one, one position later. */
  lemma ShiftedFailures<T>(attempt: nat -> Outcome<T>, next: nat -> Outcome<T>, n: nat)
    requires forall i: nat :: next(i) == attempt(i + 1)
    requires IsTransientFailure(attempt(0))
    requires forall i :: 0 <= i < n ==> IsTransientFailure(next(i))
    ensures forall i :: 0 <= i < n + 1 ==> IsTransientFailure(attempt(i))
  {
    forall i | 0 <= i < n + 1
      ensures IsTransientFailure(attempt(i))
    {
      if i > 0 {
        assert next(i - 1) == attempt(i);
      }
    }
  }

  /** Prepending the current delay to a schedule that starts at twice it keeps the doubling. */
  lemma PrependBackoff(delay: nat, ds: seq<nat>)
    requires forall i :: 0 <= i < |ds| ==> ds[i] == Backoff(delay * 2, i)
    ensures forall i :: 0 <= i < |ds| + 1 ==> ([delay] + ds)[i] == Backoff(delay, i)
  {
    forall i | 0 <= i < |ds| + 1
      ensures ([delay] + ds)[i] == Backoff(delay, i)
    {
      if i > 0 {
        assert ([delay] + ds)[i] == ds[i - 1];
      }
    }
  }

  /** A doubling schedule starting at `d` with n entries waits d·(2^n − 1) in total. */
  lemma {:induction false} GeometricSum(ds: seq<nat>, d: nat)
    requires forall i :: 0 <= i < |ds| ==> ds[i] == Backoff(d, i)
    ensures Sum(ds) == d * (Pow2(|ds|) - 1)
    decreases |ds|
  {
    if |ds| > 0 {
      forall i | 0 <= i < |ds[1..]|
        ensures ds[1..][i] == Backoff(d * 2, i)
      {
        assert ds[1..][i] == ds[i + 1];
      }
      GeometricSum(ds[1..], d * 2);
      var n := |ds| - 1;
      assert Sum(ds) == d + (d * 2) * (Pow2(n) - 1);
      GeometricStep(d, Pow2(n));
    }
  }

  lemma Regroup(a: int, b: int, c: int)
    ensures a * (b * c) == (a * b) * c
  {
  }

  lemma GeometricStep(d: int, p: int)
    ensures d + (d * 2) * (p - 1) == d * (2 * p - 1)
  {
    calc {
      d + (d * 2) * (p - 1);
      d + (d * 2) * p - d * 2;
      (d * 2) * p - d;
      { Regroup(d, 2, p); }
      d * (2 * p) - d;
      d * (2 * p - 1);
    }
  }

  /** The waits before a retried call settles add up to delay·(2^k − 1), where k is
      the number of retries taken. */
  lemma CumulativeWait<T>(attempt: nat -> Outcome<T>, retries: nat, delay: nat)
    ensures Sum(RunWithRetry(attempt, retries, delay).delays)
            == delay * (Pow2(RunWithRetry(attempt, retries, delay).attempts - 1) - 1)
  {
    ScheduleSum(RunWithRetry(attempt, retries, delay), delay);
  }

  lemma ScheduleSum<T>(c: Call<T>, delay: nat)
    requires 1 <= c.attempts && |c.delays| == c.attempts - 1
    requires forall i :: 0 <= i < |c.delays| ==> c.delays[i] == Backoff(delay, i)
    ensures Sum(c.delays) == delay * (Pow2(c.attempts - 1) - 1)
  {
    GeometricSum(c.delays, delay);
  }

  /** If every attempt before the (k+1)-th fails transiently, the (k+1)-th succeeds and the
      budget allows k retries, then the call returns that success after k+1 attempts. */
  lemma FirstSuccessWins<T>(attempt: nat -> Outcome<T>, retries: nat, delay: nat, k: nat)
    requires k <= retries
    requires forall i :: 0 <= i < k ==> IsTransientFailure(attempt(i))
    requires attempt(k).Ok?
    ensures RunWithRetry(attempt, retries, delay).result == Success(attempt(k).value)
    ensures RunWithRetry(attempt, retries, delay).attempts == k + 1
  {
  }

  /** When every attempt the budget allows fails transiently, the call makes exactly
      retries+1 attempts and rethrows the last error. */
  lemma BudgetExhausted<T>(attempt: nat -> Outcome<T>, retries: nat, delay: nat)
    requires forall i :: 0 <= i <= retries ==> IsTransientFailure(attempt(i))
    ensures RunWithRetry(attempt, retries, delay).attempts == retries + 1
    ensures RunWithRetry(attempt, retries, delay).result == Failure(attempt(retries).error)
  {
    var c := RunWithRetry(attempt, retries, delay);
    assert IsTransientFailure(attempt(c.attempts - 1));
  }

  /** A failure that is not transient ends the call after exactly one attempt, with no wait. */
  lemma PermanentFailureNotRetried<T>(attempt: nat -> Outcome<T>, retries: nat, delay: nat)
    requires attempt(0).Err? && !IsTransient(attempt(0).error)
    ensures RunWithRetry(attempt, retries, delay) == Call(Failure(attempt(0).error), 1, [])
  {
  }

  /** The run depends on the attempts' outcomes only. */
  lemma {:induction false} RetryExtensional<T>(a: nat -> Outcome<T>, b: nat -> Outcome<T>, retries: nat, delay: nat)
    requires forall i {:trigger a(i)} :: a(i) == b(i)
    ensures RunWithRetry(a, retries, delay) == RunWithRetry(b, retries, delay)
    decreases retries
  {
    if a(0).Err? && retries > 0 && IsTransient(a(0).error) {
      var na := Shift(a);
      var nb := Shift(b);
      forall i: nat ensures na(i) == nb(i) {
        assert a(i + 1) == b(i + 1);
      }
      RetryExtensional(na, nb, retries - 1, delay * 2);
      RetryStep(a, retries, delay);
      RetryStep(b, retries, delay);
    } else {
      assert a(0) == b(0);
      RetryStop(a, retries, delay);
      RetryStop(b, retries, delay);
    }
  }

  /** A transient first failure with budget left: one wait, then the run of the rest. */
  lemma RetryStep<T>(attempt: nat -> Outcome<T>, retries: nat, delay: nat)
    requires attempt(0).Err? && retries > 0 && IsTransient(attempt(0).error)
    ensures var rest := RunWithRetry(Shift(attempt), retries - 1, delay * 2);
            RunWithRetry(attempt, retries, delay) == Call(rest.result, rest.attempts + 1, [delay] + rest.delays)
  {
  }

  /** A success, a permanent failure or an exhausted budget settles on the first attempt. */
  lemma RetryStop<T>(attempt: nat -> Outcome<T>, retries: nat, delay: nat)
    requires !(attempt(0).Err? && retries > 0 && IsTransient(attempt(0).error))
    ensures RunWithRetry(attempt, retries, delay) == Call(Settle(attempt(0)), 1, [])
  {
  }

  /** A call that is rate limited twice and then returns `v`. */
  function RateLimitedTwice<T>(v: T): nat -> Outcome<T> {
    (i: nat) => if i < 2 then Err(ApiError(Some(429), "Too Many Requests")) else Ok(v)
  }

  /** Two rate-limited failures followed by a success, under the text budget: the call
      returns the success after waiting 2000 ms and then 4000 ms. */
  lemma RateLimitedTwiceThenSuccess<T>(v: T)
    ensures RunWithRetry(RateLimitedTwice(v), TextRetries, TextBaseDelay).result == Success(v)
    ensures RunWithRetry(RateLimitedTwice(v), TextRetries, TextBaseDelay).delays == [2000, 4000]
    ensures Sum(RunWithRetry(RateLimitedTwice(v), TextRetries, TextBaseDelay).delays)
            == TextBaseDelay + 2 * TextBaseDelay
  {
    var attempt := RateLimitedTwice(v);
    assert IsRateLimited(attempt(0).error) && IsRateLimited(attempt(1).error) && attempt(2) == Ok(v);
    FirstSuccessWins(attempt, TextRetries, TextBaseDelay, 2);
    TwoRetryDelays(RunWithRetry(attempt, TextRetries, TextBaseDelay), TextBaseDelay);
  }

  /** A call that settled on its third attempt waited `delay` and then twice that. */
  lemma TwoRetryDelays<T>(c: Call<T>, delay: nat)
    requires c.attempts == 3 && |c.delays| == c.attempts - 1
    requires forall i :: 0 <= i < |c.delays| ==> c.delays[i] == Backoff(delay, i)
    ensures c.delays == [delay, delay * 2]
    ensures Sum(c.delays) == delay + 2 * delay
  {
    assert c.delays[0] == Backoff(delay, 0);
    assert c.delays[1] == Backoff(delay, 1) == Backoff(delay * 2, 0);
    SumPair(delay, delay * 2);
  }

  lemma SumPair(a: nat, b: nat)
    ensures Sum([a, b]) == a + b
  {
    assert [a, b][1..] == [b];
    assert [b][1..] == [];
    assert Sum([b]) == b + Sum([]) == b;
  }
}
