/** The retry loop every controller action wraps around its database work:
    `retryCount` counts failed attempts, at most `maxRetries` = 3 are made, the third failure
    answers 500 "Database timeout", and the trailing 500 "Unexpected error" is never reached. */
module Retry {

  const MaxRetries: nat := 3
  const TimeoutMessage: string := "Database timeout. Please try again later."
  const UnexpectedMessage: string := "Unexpected error"

  /** Whether the database raises a transient fault on attempt `k` (from 0): `faults` lists the
      observed outcomes; past its end the database answers. */
  predicate Faults(faults: seq<bool>, k: nat) {
    k < |faults| && faults[k]
  }

  /** Whether attempt `k` ends in the catch block: a transient fault, or a body that throws on
      the present data whatever the database does. */
  predicate Throws(faults: seq<bool>, bodyThrows: bool, k: nat) {
    bodyThrows || Faults(faults, k)
  }

  /** Every attempt the loop may make throws. */
  predicate Exhausted(faults: seq<bool>, bodyThrows: bool) {
    forall k :: 0 <= k < MaxRetries ==> Throws(faults, bodyThrows, k)
  }

  /** The first attempt whose database call succeeds (the database answers past the end of `faults`). */
  function FirstSuccess(faults: seq<bool>): (k: nat)
    ensures k <= |faults| && !Faults(faults, k)
    ensures forall j :: 0 <= j < k ==> Faults(faults, j)
  {
    if faults == [] || !faults[0] then 0
    else
      assert forall j: nat :: 0 < j ==> Faults(faults, j) == Faults(faults[1..], j - 1);
      1 + FirstSuccess(faults[1..])
  }

  /** With a body that never throws on its own, the loop times out exactly when the first good
      attempt would be the fourth or later. */
  lemma ExhaustedIffLateSuccess(faults: seq<bool>)
    ensures Exhausted(faults, false) <==> FirstSuccess(faults) >= MaxRetries
  {
    var k := FirstSuccess(faults);
    if k < MaxRetries {
      assert !Throws(faults, false, k);
    }
  }

  /** How the loop is left: the try block returned, the third catch returned the timeout, or
      control reached the statement after the loop. */
  datatype Exit = Completed | TimedOut | FellThrough

  method RetryLoop(faults: seq<bool>, bodyThrows: bool) returns (exit: Exit, attempts: nat)
    ensures 1 <= attempts <= MaxRetries
    ensures exit != FellThrough
    ensures exit == TimedOut <==> Exhausted(faults, bodyThrows)
    ensures exit == TimedOut ==> attempts == MaxRetries
    ensures exit == Completed ==> !Throws(faults, bodyThrows, attempts - 1)
    ensures forall k :: 0 <= k < attempts - 1 ==> Throws(faults, bodyThrows, k)
  {
    var retryCount: nat := 0;
    var maxRetries := MaxRetries;
    while retryCount < maxRetries
      invariant 0 <= retryCount < maxRetries
      invariant forall k :: 0 <= k < retryCount ==> Throws(faults, bodyThrows, k)
    {
      if !Throws(faults, bodyThrows, retryCount) {
        return Completed, retryCount + 1;
      }
      retryCount := retryCount + 1;
      if retryCount >= maxRetries {
        return TimedOut, retryCount;
      }
      // await Task.Delay(delay): waiting has no effect on the model
    }
    assert false;
    return FellThrough, retryCount;
  }
}
