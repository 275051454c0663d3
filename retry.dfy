/** `retryWithBackoff` (src/utils/retry.ts): run an operation until it
    succeeds or the retries run out, sleeping between attempts for a delay that
    grows geometrically.

    The operation is given as the outcome of each attempt by attempt number,
    the sleeps are returned as the list of their durations, and the `onError`
    hook as the list of the arguments it was called with. Delays are exact
    reals. */
module Retry {
  import opened Wrappers

  /** How one call of the operation ends. */
  datatype Attempt<T, E> = Ok(value: T) | Err(error: E)

  /** `RetryOptions`; an absent field takes its default. `onError` records
      whether an `onError` hook was given. */
  datatype RetryOptions = RetryOptions(maxRetries: Option<int>, initialDelayMs: Option<real>,
                                       backoffFactor: Option<real>, onError: bool)

  const DefaultMaxRetries: int := 3
  const DefaultInitialDelayMs: real := 300.0
  const DefaultBackoffFactor: real := 2.0

  function MaxRetries(o: RetryOptions): int
  {
    if o.maxRetries.Some? then o.maxRetries.value else DefaultMaxRetries
  }

  function InitialDelay(o: RetryOptions): real
  {
    if o.initialDelayMs.Some? then o.initialDelayMs.value else DefaultInitialDelayMs
  }

  function BackoffFactor(o: RetryOptions): real
  {
    if o.backoffFactor.Some? then o.backoffFactor.value else DefaultBackoffFactor
  }

  function Pow(x: real, k: nat): real
  {
    if k == 0 then 1.0 else x * Pow(x, k - 1)
  }

  /** The number of attempts, counting from `k`, that fail and are followed by
      another: an attempt is retried while it fails and fewer than
      `maxRetries` retries have been made. */
  function RetriesFrom<T, E>(operation: nat -> Attempt<T, E>, maxRetries: int, k: nat): (n: nat)
    ensures k <= n
    ensures k <= maxRetries ==> n <= maxRetries
    ensures k > maxRetries ==> n == k
    ensures forall j :: k <= j < n ==> operation(j).Err?
    ensures operation(n).Ok? || n >= maxRetries
    decreases if k < maxRetries then maxRetries - k else 0
  {
    if operation(k).Ok? || k >= maxRetries then k else RetriesFrom(operation, maxRetries, k + 1)
  }

  /** How many retries a run makes: every attempt before it failed, and the
      attempt it stops at either succeeded or used up the retries. */
  function Retries<T, E>(operation: nat -> Attempt<T, E>, maxRetries: int): (n: nat)
    ensures n <= if maxRetries < 0 then 0 else maxRetries
    ensures forall j :: 0 <= j < n ==> operation(j).Err?
    ensures operation(n).Ok? || n >= maxRetries
  {
    RetriesFrom(operation, maxRetries, 0)
  }

  /** The `k`-th sleep as the loop computes it: `initial`, multiplied by
      `factor` once per earlier retry. */
  function Delay(initial: real, factor: real, k: nat): real
  {
    if k == 0 then initial else Delay(initial, factor, k - 1) * factor
  }

  /** The first `n` sleeps. */
  function Backoff(initial: real, factor: real, n: nat): (d: seq<real>)
    ensures |d| == n
    ensures forall j :: 0 <= j < n ==> d[j] == Delay(initial, factor, j)
  {
    if n == 0 then [] else Backoff(initial, factor, n - 1) + [Delay(initial, factor, n - 1)]
  }

  /** The `k`-th sleep lasts `initial * factor^k`. */
  lemma {:induction false} DelayClosedForm(initial: real, factor: real, k: nat)
    ensures Delay(initial, factor, k) == initial * Pow(factor, k)
  {
    if k > 0 {
      DelayClosedForm(initial, factor, k - 1);
      var p, previous := Pow(factor, k - 1), Delay(initial, factor, k - 1);
      assert Delay(initial, factor, k) == previous * factor;
      assert Pow(factor, k) == factor * p;
      assert previous * factor == initial * (factor * p);
    }
  }

  /** The sleeps of a run form a geometric sequence. */
  lemma SleepsAreGeometric(initial: real, factor: real, n: nat)
    ensures forall j :: 0 <= j < n ==> Backoff(initial, factor, n)[j] == initial * Pow(factor, j)
  {
    forall j | 0 <= j < n ensures Backoff(initial, factor, n)[j] == initial * Pow(factor, j) {
      assert Backoff(initial, factor, n)[j] == Delay(initial, factor, j);
      DelayClosedForm(initial, factor, j);
    }
  }

  /** `retryWithBackoff`. Returns the outcome of the last attempt (the value of
      the first success, or the error rethrown once the retries are used up),
      the `onError` calls, the sleeps and the number of attempts. */
  method RetryWithBackoff<T, E>(operation: nat -> Attempt<T, E>, options: RetryOptions)
    returns (r: Attempt<T, E>, reports: seq<(nat, E)>, sleeps: seq<real>, attempts: nat)
    ensures attempts == Retries(operation, MaxRetries(options)) + 1
    ensures r == operation(attempts - 1)
    ensures sleeps == Backoff(InitialDelay(options), BackoffFactor(options), attempts - 1)
    ensures |reports| == if options.onError then attempts - 1 else 0
    ensures forall j :: 0 <= j < |reports| ==> reports[j].0 == j + 1 && operation(j) == Err(reports[j].1)
  {
    var maxRetries := MaxRetries(options);
    var factor := BackoffFactor(options);
    var attempt: nat := 0;
    var delay := InitialDelay(options);
    reports := [];
    sleeps := [];
    while true
      invariant maxRetries > 0 ==> attempt <= maxRetries
      invariant maxRetries <= 0 ==> attempt == 0
      invariant forall j :: 0 <= j < attempt ==> operation(j).Err?
      invariant RetriesFrom(operation, maxRetries, attempt) == Retries(operation, maxRetries)
      invariant delay == Delay(InitialDelay(options), factor, attempt)
      invariant sleeps == Backoff(InitialDelay(options), factor, attempt)
      invariant |reports| == if options.onError then attempt else 0
      invariant forall j :: 0 <= j < |reports| ==> reports[j].0 == j + 1 && operation(j) == Err(reports[j].1)
      decreases if attempt < maxRetries then maxRetries - attempt else 0
    {
      var outcome := operation(attempt);
      if outcome.Ok? {
        return outcome, reports, sleeps, attempt + 1;
      }
      if attempt >= maxRetries {
        return outcome, reports, sleeps, attempt + 1;
      }
      if options.onError {
        reports := reports + [(attempt + 1, outcome.error)];
      }
      sleeps := sleeps + [delay];
      attempt := attempt + 1;
      delay := delay * factor;
    }
  }

  /** Fail, fail, succeed with the default options: two retries, after
      sleeps of 300 and 600 ms. */
  lemma TwoFailuresThenSuccess()
    ensures var operation := (k: nat) => if k < 2 then Err("busy") else Ok(k);
            Retries(operation, MaxRetries(RetryOptions(None, None, None, true))) == 2
    ensures Backoff(DefaultInitialDelayMs, DefaultBackoffFactor, 2) == [300.0, 600.0]
  {
    assert Delay(300.0, 2.0, 1) == 600.0;
    var operation := (k: nat) => if k < 2 then Err("busy") else Ok(k);
    assert RetriesFrom(operation, 3, 2) == 2;
    assert RetriesFrom(operation, 3, 1) == 2;
  }

  /** With `maxRetries` at most 0 the operation runs once, whatever it
      returns, and there is nothing to sleep. */
  lemma NoRetriesMeansOneAttempt<T, E>(operation: nat -> Attempt<T, E>, maxRetries: int)
    requires maxRetries <= 0
    ensures Retries(operation, maxRetries) == 0
  {
  }

  /** Every attempt always fails: the run makes exactly `maxRetries` retries
      and rethrows the error of attempt `maxRetries + 1`. */
  lemma AlwaysFailing<T, E>(operation: nat -> Attempt<T, E>, maxRetries: nat)
    requires forall k :: operation(k).Err?
    ensures Retries(operation, maxRetries) == maxRetries
  {
  }
}
