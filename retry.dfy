/** The retry_db decorator (models.py:104-123): call the wrapped operation, and
    when sqlite reports lock contention wait and call it again, up to a bounded
    number of attempts, multiplying the wait after each failure.

    The wrapped call is an oracle `op`: `op(k)` is what the k-th call (counting
    from 0) returns or raises; what makes the store busy is outside the model.
    The sleeps are returned as a trace instead of being performed. */
module Retry {
  import opened Common
  import opened Text

  const MaxAttempts: int := 5
  const InitialDelay: real := 0.05
  const Backoff: real := 2.0

  /** What one call of the wrapped function does. */
  datatype Attempt<T> = Returned(value: T) | Raised(failure: Failure)

  /** What the wrapper does: return a value, raise, or (only when there is no
      attempt at all) fall off the end of the loop and return None. */
  datatype Outcome<T> = Value(value: T) | Error(failure: Failure) | NoneReturned

  /** The test at models.py:114-115 on the lower-cased message. */
  predicate IsContention(f: Failure) {
    f.OperationalError? &&
    var msg := Lower(f.message);
    Contains(msg, "locked") || Contains(msg, "database is locked") || Contains(msg, "busy")
  }

  /** The middle disjunct is redundant: contention means "locked" or "busy". */
  lemma ContentionIsLockedOrBusy(f: Failure)
    ensures IsContention(f) <==>
      f.OperationalError? && (Contains(Lower(f.message), "locked") || Contains(Lower(f.message), "busy"))
  {
    if f.OperationalError? && Contains(Lower(f.message), "database is locked") {
      var phrase := "database is locked";
      assert OccursAt(phrase, "locked", 12);
      ContainsTransitive(Lower(f.message), phrase, "locked");
    }
  }

  /** An attempt the wrapper answers by sleeping and calling again (unless it was the last). */
  predicate Retryable<T>(a: Attempt<T>) {
    a.Raised? && IsContention(a.failure)
  }

  function Settle<T>(a: Attempt<T>): Outcome<T> {
    match a
    case Returned(v) => Value(v)
    case Raised(f) => Error(f)
  }

  /** The wrapper. `calls` is how many times the operation ran; `sleeps` the
      delays passed to time.sleep, in order. */
  method RetryDb<T>(op: nat -> Attempt<T>, maxAttempts: int, initialDelay: real, backoff: real)
    returns (r: Outcome<T>, calls: nat, sleeps: seq<real>)
    // no attempt at all only when the range is empty, and then None is returned
    ensures calls == 0 <==> maxAttempts <= 0
    ensures calls == 0 ==> r == NoneReturned
    // at most maxAttempts calls
    ensures calls <= maxAttempts || calls == 0
    // every call but the last hit lock contention
    ensures forall k :: 0 <= k < calls - 1 ==> Retryable(op(k))
    // the wrapper stops early only on a value or on an error it does not retry
    ensures 0 < calls < maxAttempts ==> !Retryable(op(calls - 1))
    // what the last call did is what the caller sees, re-raised unchanged
    ensures calls > 0 ==> r == Settle(op(calls - 1))
    // one sleep between consecutive calls, each `backoff` times the one before
    ensures |sleeps| == if calls == 0 then 0 else calls - 1
    ensures |sleeps| > 0 ==> sleeps[0] == initialDelay
    ensures forall k :: 0 < k < |sleeps| ==> sleeps[k] == sleeps[k - 1] * backoff
  {
    var delay := initialDelay;
    var attempt := 1;
    calls, sleeps := 0, [];
    while attempt <= maxAttempts
      invariant 1 <= attempt && calls == attempt - 1
      invariant attempt == 1 || attempt <= maxAttempts
      invariant forall k :: 0 <= k < calls ==> Retryable(op(k))
      invariant |sleeps| == calls
      invariant |sleeps| > 0 ==> sleeps[0] == initialDelay
      invariant forall k :: 0 < k < |sleeps| ==> sleeps[k] == sleeps[k - 1] * backoff
      invariant delay == if calls == 0 then initialDelay else sleeps[calls - 1] * backoff
    {
      var a := op(attempt - 1);
      calls := calls + 1;
      if a.Returned? {
        return Value(a.value), calls, sleeps;
      }
      if IsContention(a.failure) {
        if attempt == maxAttempts {
          return Error(a.failure), calls, sleeps;
        }
        sleeps := sleeps + [delay];
        delay := delay * backoff;
        attempt := attempt + 1;
        continue;
      }
      return Error(a.failure), calls, sleeps;
    }
    // the loop only exits here when it never ran
    r := NoneReturned;
  }

  /** The decorator's defaults: five attempts, waits of 0.05 s, 0.1 s, 0.2 s and 0.4 s. */
  method RetryDbDefault<T>(op: nat -> Attempt<T>) returns (r: Outcome<T>, calls: nat, sleeps: seq<real>)
    ensures 1 <= calls <= 5
    ensures r == Settle(op(calls - 1))
    ensures forall k :: 0 <= k < calls - 1 ==> Retryable(op(k))
    ensures calls < 5 ==> !Retryable(op(calls - 1))
    ensures sleeps == [0.05, 0.1, 0.2, 0.4][..calls - 1]
  {
    r, calls, sleeps := RetryDb(op, MaxAttempts, InitialDelay, Backoff);
    var expected := [0.05, 0.1, 0.2, 0.4];
    forall k | 0 <= k < |sleeps| ensures sleeps[k] == expected[k] {
      if k >= 1 { assert sleeps[1] == 0.1; }
      if k >= 2 { assert sleeps[2] == 0.2; }
    }
  }
}
