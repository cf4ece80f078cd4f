/**
 * The retry wrapper (`retry_with_exponential_backoff`): call the operation up to
 * `max_retries` times, retrying only errors whose text signals a rate limit ("429" or
 * "ResourceExhausted"), and re-raise on the last attempt.
 */
module Retry {
  import opened Text

  /** What one call of the wrapped operation does: return a value, or raise an error whose
      text (`str(e)`) is given. */
  datatype Attempt<T> = Succeeded(value: T) | Failed(error: string)

  /** How the wrapper ends: the operation's value, a raised error, or `None` when it made no call. */
  datatype RetryResult<T> = Returned(value: T) | Raised(error: string) | ReturnedNone

  /** The rate-limit classification of an error text. */
  predicate Transient(error: string) {
    Contains(error, "429") || Contains(error, "ResourceExhausted")
  }

  /** An error is a rate limit exactly when "429" or "ResourceExhausted" occurs somewhere in its text. */
  lemma TransientMeaning(error: string)
    ensures Transient(error)
      <==> (exists i: nat :: OccursAt(error, "429", i)) || (exists i: nat :: OccursAt(error, "ResourceExhausted", i))
  {
    ContainsMeaning(error, "429");
    ContainsMeaning(error, "ResourceExhausted");
  }

  /** A quota error is retried wherever the marker appears in its text. */
  lemma TransientExamples()
    ensures Transient("Error 429")
    ensures Transient("ResourceExhausted: quota")
  {
    TransientMeaning("Error 429");
    TransientMeaning("ResourceExhausted: quota");
    OccursInMiddle("Error ", "429", "");
    assert "Error " + ("429" + "") == "Error 429";
    OccursInMiddle("", "ResourceExhausted", ": quota");
    assert "" + ("ResourceExhausted" + ": quota") == "ResourceExhausted: quota";
  }

  /** An error that mentions neither marker, such as a timeout, is not retried. */
  lemma TimeoutNotTransient()
    ensures !Transient("timeout")
  {
    TransientMeaning("timeout");
    forall i: nat ensures !OccursAt("timeout", "429", i) {
      if i + 3 <= 7 {
        assert "timeout"[i..i + 3][0] == "timeout"[i];
      }
    }
  }

  predicate IsTransientFailure<T>(a: Attempt<T>) {
    a.Failed? && Transient(a.error)
  }

  /** How the wrapper ends when the given attempt is its last. */
  function Final<T>(a: Attempt<T>): RetryResult<T> {
    match a
    case Succeeded(v) => Returned(v)
    case Failed(e) => Raised(e)
  }

  /** The wrapper from attempt number `attempt` on, where `op(i)` is what the i-th call
      does: the way it ends and the number of calls made in all. */
  function RetryFrom<T>(maxRetries: int, op: nat -> Attempt<T>, attempt: nat): (RetryResult<T>, nat)
    decreases maxRetries - attempt
  {
    if attempt >= maxRetries then (ReturnedNone, attempt)
    else
      match op(attempt)
      case Succeeded(v) => (Returned(v), attempt + 1)
      case Failed(e) =>
        if Transient(e) then
          if attempt == maxRetries - 1 then (Raised(e), attempt + 1)
          else RetryFrom(maxRetries, op, attempt + 1)
        else (Raised(e), attempt + 1)
  }

  function Pow2(k: nat): (r: real)
    ensures r >= 1.0
  {
    if k == 0 then 1.0 else 2.0 * Pow2(k - 1)
  }

  /** The wait before the next attempt: `min(multiplier * 2**attempt + jitter, max_wait)`,
      with `jitter` drawn from [0, 1]. */
  function BackoffWait(multiplier: real, attempt: nat, jitter: real, maxWait: real): (w: real)
    requires 0.0 <= jitter <= 1.0
    ensures w <= maxWait
    ensures w <= multiplier * Pow2(attempt) + 1.0
    ensures w == maxWait || w >= multiplier * Pow2(attempt)
  {
    var x := multiplier * Pow2(attempt) + jitter;
    if x < maxWait then x else maxWait
  }

  /** The wrapper's attempt loop. `jitter(i)` is the random draw after the i-th attempt;
      `waits` lists the sleeps, one per retry. */
  method RetryWithBackoff<T>(maxRetries: int, multiplier: real, maxWait: real,
                             op: nat -> Attempt<T>, jitter: nat -> real)
    returns (r: RetryResult<T>, calls: nat, waits: seq<real>)
    requires forall i :: 0.0 <= jitter(i) <= 1.0
    ensures (r, calls) == RetryFrom(maxRetries, op, 0)
    ensures |waits| == if calls == 0 then 0 else calls - 1
    ensures forall i :: 0 <= i < |waits| ==> waits[i] == BackoffWait(multiplier, i, jitter(i), maxWait)
  {
    calls, waits := 0, [];
    var hi := if maxRetries < 0 then 0 else maxRetries;
    for attempt := 0 to hi
      invariant calls == attempt && |waits| == attempt
      invariant maxRetries > 0 ==> attempt <= maxRetries - 1
      invariant RetryFrom(maxRetries, op, attempt) == RetryFrom(maxRetries, op, 0)
      invariant forall i :: 0 <= i < |waits| ==> waits[i] == BackoffWait(multiplier, i, jitter(i), maxWait)
    {
      calls := calls + 1;
      match op(attempt)
      case Succeeded(v) =>
        r := Returned(v);
        return;
      case Failed(e) =>
        if Transient(e) {
          if attempt == maxRetries - 1 {
            r := Raised(e);
            return;
          }
          var wait := BackoffWait(multiplier, attempt, jitter(attempt), maxWait);
          waits := waits + [wait];
        } else {
          r := Raised(e);
          return;
        }
    }
    r := ReturnedNone;
  }

  /** Attempt `j` is decisive when it is the last one allowed or does not fail transiently.
      If every attempt from `a` up to `j` failed transiently, the wrapper ends with
      attempt `j`'s outcome after `j + 1` calls. */
  lemma {:induction false} RetryEndsAtDecisiveAttempt<T>(maxRetries: int, op: nat -> Attempt<T>, a: nat, j: nat)
    requires a <= j < maxRetries
    requires forall i :: a <= i < j ==> IsTransientFailure(op(i))
    requires j == maxRetries - 1 || !IsTransientFailure(op(j))
    ensures RetryFrom(maxRetries, op, a) == (Final(op(j)), j + 1)
    decreases j - a
  {
    if a < j {
      RetryEndsAtDecisiveAttempt(maxRetries, op, a + 1, j);
    }
  }

  /** The first success is returned at once, and an error that is not a rate limit
      propagates at once: no further calls are made. */
  lemma FirstSuccessOrFatalErrorEndsRetry<T>(maxRetries: int, op: nat -> Attempt<T>, j: nat)
    requires j < maxRetries
    requires forall i :: 0 <= i < j ==> IsTransientFailure(op(i))
    requires op(j).Succeeded? || !Transient(op(j).error)
    ensures RetryFrom(maxRetries, op, 0) == (Final(op(j)), j + 1)
  {
    RetryEndsAtDecisiveAttempt(maxRetries, op, 0, j);
  }

  /** An operation that always fails with a rate limit is called exactly `max_retries`
      times and its last error is re-raised. */
  lemma AlwaysTransientExhaustsRetries<T>(maxRetries: int, op: nat -> Attempt<T>)
    requires maxRetries > 0
    requires forall i :: 0 <= i < maxRetries ==> IsTransientFailure(op(i))
    ensures RetryFrom(maxRetries, op, 0) == (Final(op(maxRetries - 1)), maxRetries)
    ensures RetryFrom(maxRetries, op, 0).0.Raised?
  {
    RetryEndsAtDecisiveAttempt(maxRetries, op, 0, maxRetries - 1);
    assert IsTransientFailure(op(maxRetries - 1));
  }

  /** The operation is called at most `max_retries` times; with `max_retries <= 0` it is
      never called and the wrapper returns `None`; otherwise it is called at least once,
      every call before the last failed with a rate limit, and the wrapper ends with the
      last call's outcome. */
  lemma {:induction false} RetryCallBounds<T>(maxRetries: int, op: nat -> Attempt<T>, a: nat)
    ensures var (r, calls) := RetryFrom(maxRetries, op, a);
      && (a >= maxRetries ==> r == ReturnedNone && calls == a)
      && (a < maxRetries ==>
            && a < calls <= maxRetries
            && r == Final(op(calls - 1))
            && forall i :: a <= i < calls - 1 ==> IsTransientFailure(op(i)))
    decreases maxRetries - a
  {
    if a < maxRetries && IsTransientFailure(op(a)) && a < maxRetries - 1 {
      RetryCallBounds(maxRetries, op, a + 1);
    }
  }

  /** The decorator's defaults, which every node of the graph uses. */
  const DefaultMaxRetries := 5
  const DefaultMultiplier := 1.0
  const DefaultMaxWait := 120.0

  /** With the defaults the operation is called between one and five times. */
  lemma DefaultRetryCallsAtMostFive<T>(op: nat -> Attempt<T>)
    ensures 1 <= RetryFrom(DefaultMaxRetries, op, 0).1 <= 5
    ensures RetryFrom(DefaultMaxRetries, op, 0).0 != ReturnedNone
  {
    RetryCallBounds(DefaultMaxRetries, op, 0);
  }

  /** With the defaults no wait reaches the 120-second cap: the wait before retry `i + 1`
      is `2**i` seconds plus the jitter. */
  lemma DefaultWaitsUncapped(i: nat, jitter: real)
    requires i < DefaultMaxRetries - 1
    requires 0.0 <= jitter <= 1.0
    ensures BackoffWait(DefaultMultiplier, i, jitter, DefaultMaxWait) == Pow2(i) + jitter
    ensures Pow2(i) + jitter <= 9.0
  {
    assert Pow2(1) == 2.0;
    assert Pow2(2) == 4.0;
    assert Pow2(3) == 8.0;
  }
}
