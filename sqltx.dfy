/**
 * The transaction wrapper of the ledger (`sql_decorator` in accountwallet.py):
 * every decorated function runs inside an exclusive transaction; when an
 * attempt raises, the transaction is rolled back and the function is run
 * again, at most five times in all; the first attempt that succeeds is
 * committed and its value returned; after five failures the last error is
 * raised to the caller.
 *
 * A unit of work is modelled as a pure function from the attempt number and
 * the committed state to either a new state with a value, or an error.  The
 * attempt number stands for everything that may differ between attempts (a
 * fresh daemon answer, lock contention, the clock).
 */
module SqlTx {
  import opened Wrappers

  /** `for i in range(5)` in the wrapper. */
  const MaxAttempts: nat := 5

  /** What a wrapped call ends in: a commit of the state and value of `attempt`, or a raised error. */
  datatype Outcome<S, R, E> = Committed(state: S, value: R, attempt: nat) | Raised(error: E)

  /** Attempts `i` up to `MaxAttempts - 1`, on the unchanged state `s`; `last` is the error of attempt `i - 1`. */
  function RetryFrom<S, R, E>(op: (nat, S) -> Result<(S, R), E>, s: S, i: nat, last: E): (o: Outcome<S, R, E>)
    requires 1 <= i <= MaxAttempts
    decreases MaxAttempts - i
    ensures o.Committed? ==>
              && i <= o.attempt < MaxAttempts
              && op(o.attempt, s) == Success((o.state, o.value))
              && forall k :: i <= k < o.attempt ==> op(k, s).Failure?
    ensures o.Raised? ==>
              && (forall k :: i <= k < MaxAttempts ==> op(k, s).Failure?)
              && o.error == (if i == MaxAttempts then last else op(MaxAttempts - 1, s).error)
  {
    if i == MaxAttempts then Raised(last)
    else
      match op(i, s)
      case Success(sr) => Committed(sr.0, sr.1, i)
      case Failure(e) => RetryFrom(op, s, i + 1, e)
  }

  /**
   * The wrapper: the first successful attempt commits; a failed attempt is
   * rolled back, so every attempt starts from the same state `s`; after
   * `MaxAttempts` failures the error of the last attempt is raised.
   */
  function Retry<S, R, E>(op: (nat, S) -> Result<(S, R), E>, s: S): (o: Outcome<S, R, E>)
    ensures o.Committed? <==> exists k :: 0 <= k < MaxAttempts && op(k, s).Success?
    ensures o.Committed? ==>
              && o.attempt < MaxAttempts
              && op(o.attempt, s) == Success((o.state, o.value))
              && forall k :: 0 <= k < o.attempt ==> op(k, s).Failure?
    ensures o.Raised? ==> o.error == op(MaxAttempts - 1, s).error
  {
    match op(0, s)
    case Success(sr) => Committed(sr.0, sr.1, 0)
    case Failure(e) => RetryFrom(op, s, 1, e)
  }

  /** The store after the wrapped call: the committed state, or the state before the call. */
  function StateAfter<S, R, E>(o: Outcome<S, R, E>, s: S): S {
    if o.Committed? then o.state else s
  }

  /**
   * A unit of work that behaves the same on every attempt (a deterministic
   * failure such as a constraint violation) is committed on the first attempt
   * or fails on all five, with its own error and the store left as it was.
   */
  lemma {:induction false} RetryDeterministic<S, R, E>(op: (nat, S) -> Result<(S, R), E>, s: S)
    requires forall k :: 0 <= k < MaxAttempts ==> op(k, s) == op(0, s)
    ensures op(0, s).Success? ==> Retry(op, s) == Committed(op(0, s).value.0, op(0, s).value.1, 0)
    ensures op(0, s).Failure? ==> Retry(op, s) == Raised(op(0, s).error) && StateAfter(Retry(op, s), s) == s
  {
    if op(0, s).Failure? {
      assert op(MaxAttempts - 1, s) == op(0, s);
    }
  }
}
