/** The exponential back-off around every Wikidata query in the use-case-3
    scripts. Two shapes exist: one re-raises the last failure (optionally with
    the delay capped at 60 seconds), the other sleeps after every failure and
    then gives up with a `RuntimeError`. The endpoint is a parameter:
    `outcome(k)` is what the `k`-th call (counting from 0) produces, and the
    sleeps are returned as the list of delays, in seconds. */
module Retry {
  import opened Values

  datatype Attempt<+T> = Answer(value: T) | Failed

  /** `Returned(v)`: the query answered. `Reraised`: the last failure propagates.
      `GaveUp`: a `RuntimeError` is raised after the loop. `FellThrough`: the loop
      never ran and the function returns None. */
  datatype Ending<+T> = Returned(value: T) | Reraised | GaveUp | FellThrough

  const InitialDelay: nat := 5
  const DelayCap: nat := 60
  const MaxRetries: int := 5

  /** `delay * 2`, or `min(delay * 2, cap)` when there is a cap. */
  function NextDelay(d: nat, cap: Option<nat>): nat {
    if cap.Some? && cap.value < 2 * d then cap.value else 2 * d
  }

  /** The delay slept after the `k`-th failure. */
  function DelayAt(k: nat, cap: Option<nat>): nat {
    if k == 0 then InitialDelay else NextDelay(DelayAt(k - 1, cap), cap)
  }

  /** The delays of the first `n` sleeps: the `k`-th is `5 * 2^k` seconds
      without a cap, and that or 60, whichever is smaller, with the cap. */
  function Delays(n: nat, cap: Option<nat>): (r: seq<nat>)
    ensures |r| == n && forall k :: 0 <= k < n ==> r[k] == DelayAt(k, cap)
    ensures cap.None? ==> forall k :: 0 <= k < n ==> r[k] == InitialDelay * Pow2(k)
    ensures cap == Some(DelayCap) ==> forall k :: 0 <= k < n ==>
      r[k] == if InitialDelay * Pow2(k) < DelayCap then InitialDelay * Pow2(k) else DelayCap
  {
    assert forall k :: 0 <= k < n ==> DelayAt(k, None) == InitialDelay * Pow2(k) by {
      forall k | 0 <= k < n {
        UncappedDelay(k);
      }
    }
    assert forall k :: 0 <= k < n ==>
      DelayAt(k, Some(DelayCap)) == if InitialDelay * Pow2(k) < DelayCap then InitialDelay * Pow2(k) else DelayCap by {
      forall k | 0 <= k < n {
        CappedDelay(k);
      }
    }
    seq(n, k requires 0 <= k < n => DelayAt(k, cap))
  }

  /** Where the first answer comes, among the first `limit` attempts. */
  function FirstAnswer<T>(outcome: nat -> Attempt<T>, limit: nat): (r: Option<nat>)
    ensures r.Some? ==>
      (r.value < limit && outcome(r.value).Answer? &&
       forall k :: 0 <= k < r.value ==> outcome(k).Failed?)
    ensures r.None? ==> forall k :: 0 <= k < limit ==> outcome(k).Failed?
  {
    if limit == 0 then None
    else
      var earlier := FirstAnswer(outcome, limit - 1);
      if earlier.Some? then earlier
      else if outcome(limit - 1).Answer? then Some(limit - 1)
      else None
  }

  function AttemptLimit(maxRetries: int): nat {
    if maxRetries < 0 then 0 else maxRetries + 1
  }

  /** `run_query_with_backoff` of the scripts that re-raise: at most
      `max_retries + 1` calls, a sleep between two calls but none after the
      last, and the last failure propagates. */
  method BackoffReraise<T>(maxRetries: int, cap: Option<nat>, outcome: nat -> Attempt<T>)
    returns (e: Ending<T>, sleeps: seq<nat>)
    ensures match FirstAnswer(outcome, AttemptLimit(maxRetries))
      case Some(k) => e == Returned(outcome(k).value) && sleeps == Delays(k, cap)
      case None =>
        if maxRetries < 0 then e == FellThrough && sleeps == []
        else e == Reraised && sleeps == Delays(maxRetries, cap)
  {
    var retry := 0;
    var delay := InitialDelay;
    sleeps := [];
    while retry <= maxRetries
      invariant 0 <= retry <= AttemptLimit(maxRetries)
      invariant maxRetries < 0 || retry <= maxRetries
      invariant FirstAnswer(outcome, retry).None?
      invariant sleeps == Delays(retry, cap) && delay == DelayAt(retry, cap)
      decreases maxRetries - retry
    {
      match outcome(retry)
      case Answer(v) =>
        assert FirstAnswer(outcome, retry + 1) == Some(retry);
        FirstAnswerStable(outcome, retry + 1, AttemptLimit(maxRetries));
        return Returned(v), sleeps;
      case Failed =>
        retry := retry + 1;
        if retry > maxRetries {
          return Reraised, sleeps;
        }
        sleeps := sleeps + [delay];
        delay := NextDelay(delay, cap);
    }
    return FellThrough, sleeps;
  }

  /** `run_query_with_backoff` of the scripts that give up: every failure,
      including the last, is followed by a sleep, and after `max_retries + 1`
      failures a `RuntimeError` is raised. */
  method BackoffGiveUp<T>(maxRetries: int, outcome: nat -> Attempt<T>)
    returns (e: Ending<T>, sleeps: seq<nat>)
    ensures match FirstAnswer(outcome, AttemptLimit(maxRetries))
      case Some(k) => e == Returned(outcome(k).value) && sleeps == Delays(k, None)
      case None => e == GaveUp && sleeps == Delays(AttemptLimit(maxRetries), None)
  {
    var retryCount := 0;
    var delay := InitialDelay;
    sleeps := [];
    while retryCount <= maxRetries
      invariant 0 <= retryCount <= AttemptLimit(maxRetries)
      invariant FirstAnswer(outcome, retryCount).None?
      invariant sleeps == Delays(retryCount, None) && delay == DelayAt(retryCount, None)
      decreases maxRetries - retryCount
    {
      match outcome(retryCount)
      case Answer(v) =>
        assert FirstAnswer(outcome, retryCount + 1) == Some(retryCount);
        FirstAnswerStable(outcome, retryCount + 1, AttemptLimit(maxRetries));
        return Returned(v), sleeps;
      case Failed =>
        retryCount := retryCount + 1;
        sleeps := sleeps + [delay];
        delay := NextDelay(delay, None);
    }
    return GaveUp, sleeps;
  }

  /** Once an answer has come, later attempts change nothing. */
  lemma {:induction false} FirstAnswerStable<T>(outcome: nat -> Attempt<T>, n: nat, m: nat)
    requires n <= m && FirstAnswer(outcome, n).Some?
    ensures FirstAnswer(outcome, m) == FirstAnswer(outcome, n)
    decreases m - n
  {
    if n < m {
      FirstAnswerStable(outcome, n, m - 1);
    }
  }

  function Pow2(k: nat): nat {
    if k == 0 then 1 else 2 * Pow2(k - 1)
  }

  /** Uncapped, the `k`-th delay is `5 * 2^k` seconds. */
  lemma {:induction false} UncappedDelay(k: nat)
    ensures DelayAt(k, None) == InitialDelay * Pow2(k)
  {
    if k > 0 {
      UncappedDelay(k - 1);
    }
  }

  /** Capped at 60, the delays run 5, 10, 20, 40 and then stay at 60. */
  lemma {:induction false} CappedDelay(k: nat)
    ensures DelayAt(k, Some(DelayCap)) == if InitialDelay * Pow2(k) < DelayCap then InitialDelay * Pow2(k) else DelayCap
  {
    if k > 0 {
      CappedDelay(k - 1);
    }
  }
}
