/**
 * `withRetry`: call an operation until it yields a result that is not worth
 * retrying or the attempts run out, sleeping an exponentially growing delay
 * between calls.
 *
 * The operation is an oracle `fn`: `fn(k)` is what its k-th call (from 0)
 * yields. The sleeps are reported as the list of delays requested; only the
 * exponential term `baseDelayMs * 2^attempt` is modelled, not the random
 * jitter added to it.
 */
module Retry {

  const DefaultMaxAttempts: int := 2
  const DefaultBaseDelayMs: int := 500

  /** `2^k`. */
  function Pow2(k: nat): (r: nat)
    ensures r >= 1
  {
    if k == 0 then 1 else 2 * Pow2(k - 1)
  }

  /** How many calls the loop makes at most: `maxAttempts`, but never fewer than one. */
  function Attempts(maxAttempts: int): (n: nat)
    ensures n >= 1 && n >= maxAttempts
    ensures maxAttempts >= 1 ==> n == maxAttempts
  {
    if maxAttempts < 1 then 1 else maxAttempts
  }

  /**
   * The index of the first call at or after `k` whose result is not retryable,
   * searching no further than `last`, where the search stops regardless.
   */
  function FirstStop<R>(fn: nat -> R, retryable: R -> bool, k: nat, last: nat): (s: nat)
    requires k <= last
    ensures k <= s <= last
    decreases last - k
  {
    if k == last || !retryable(fn(k)) then k else FirstStop(fn, retryable, k + 1, last)
  }

  /** The number of calls `withRetry` makes. */
  function Invocations<R>(fn: nat -> R, retryable: R -> bool, maxAttempts: int): nat {
    FirstStop(fn, retryable, 0, Attempts(maxAttempts) - 1) + 1
  }

  /** Every call before the stop yielded a retryable result; the stop is not retryable unless it is the last allowed. */
  lemma {:induction false} FirstStopIsFirst<R>(fn: nat -> R, retryable: R -> bool, k: nat, last: nat)
    requires k <= last
    ensures forall m :: k <= m < FirstStop(fn, retryable, k, last) ==> retryable(fn(m))
    ensures FirstStop(fn, retryable, k, last) < last ==> !retryable(fn(FirstStop(fn, retryable, k, last)))
    decreases last - k
  {
    if k < last && retryable(fn(k)) {
      FirstStopIsFirst(fn, retryable, k + 1, last);
    }
  }

  /** The call count is between one and `max(maxAttempts, 1)`; the operation is always called at least once. */
  lemma InvocationsBounds<R>(fn: nat -> R, retryable: R -> bool, maxAttempts: int)
    ensures 1 <= Invocations(fn, retryable, maxAttempts) <= Attempts(maxAttempts)
  {
  }

  /** An operation whose every result is retryable is called exactly `max(maxAttempts, 1)` times. */
  lemma {:induction false} InvocationsAlwaysRetryable<R>(fn: nat -> R, retryable: R -> bool, maxAttempts: int)
    requires forall k :: retryable(fn(k))
    ensures Invocations(fn, retryable, maxAttempts) == Attempts(maxAttempts)
  {
    FirstStopAlwaysRetryable(fn, retryable, 0, Attempts(maxAttempts) - 1);
  }

  lemma {:induction false} FirstStopAlwaysRetryable<R>(fn: nat -> R, retryable: R -> bool, k: nat, last: nat)
    requires k <= last
    requires forall m :: retryable(fn(m))
    ensures FirstStop(fn, retryable, k, last) == last
    decreases last - k
  {
    if k < last {
      FirstStopAlwaysRetryable(fn, retryable, k + 1, last);
    }
  }

  /**
   * Otherwise the count is one past the first non-retryable result, capped at
   * `max(maxAttempts, 1)`.
   */
  lemma {:induction false} InvocationsFirstFailure<R>(fn: nat -> R, retryable: R -> bool, maxAttempts: int, j: nat)
    requires !retryable(fn(j)) && forall m :: 0 <= m < j ==> retryable(fn(m))
    ensures Invocations(fn, retryable, maxAttempts) == if j + 1 < Attempts(maxAttempts) then j + 1 else Attempts(maxAttempts)
  {
    var last := Attempts(maxAttempts) - 1;
    FirstStopIsFirst(fn, retryable, 0, last);
    var s := FirstStop(fn, retryable, 0, last);
    if s < j {
      assert retryable(fn(s));
    }
  }

  /** With the default of two attempts, the operation is called once or twice. */
  lemma DefaultInvocations<R>(fn: nat -> R, retryable: R -> bool)
    ensures Invocations(fn, retryable, DefaultMaxAttempts) <= 2
    ensures retryable(fn(0)) <==> Invocations(fn, retryable, DefaultMaxAttempts) == 2
  {
  }

  /**
   * The retry loop. Returns the result of the last call, how many calls were
   * made, and the (non-jitter part of the) delays slept between them.
   */
  method WithRetry<R>(fn: nat -> R, retryable: R -> bool, maxAttempts: int, baseDelayMs: int)
    returns (result: R, calls: nat, delays: seq<int>)
    ensures calls == Invocations(fn, retryable, maxAttempts)
    ensures result == fn(calls - 1)
    ensures forall k :: 0 <= k < calls - 1 ==> retryable(fn(k))
    ensures calls < Attempts(maxAttempts) ==> !retryable(result)
    ensures |delays| == calls - 1
    ensures forall k :: 0 <= k < |delays| ==> delays[k] == baseDelayMs * Pow2(k)
  {
    var attempt: nat := 0;
    delays := [];
    ghost var last := Attempts(maxAttempts) - 1;
    FirstStopIsFirst(fn, retryable, 0, last);
    while true
      invariant attempt <= FirstStop(fn, retryable, 0, last)
      invariant |delays| == attempt
      invariant forall k :: 0 <= k < attempt ==> delays[k] == baseDelayMs * Pow2(k)
      decreases last - attempt
    {
      result := fn(attempt);
      if !retryable(result) || attempt >= maxAttempts - 1 {
        calls := attempt + 1;
        return;
      }
      delays := delays + [baseDelayMs * Pow2(attempt)];
      attempt := attempt + 1;
    }
  }
}
