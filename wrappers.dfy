/** Option and Result types shared by the ledger and the command layer. */
module Wrappers {

  /** A value that may be absent: SQL NULL, a daemon answer of `null`, a missing key. */
  datatype Option<+T> = None | Some(value: T)

  /** The outcome of a unit of work that either produces a value or raises an error. */
  datatype Result<+T, +E> = Success(value: T) | Failure(error: E)
}
