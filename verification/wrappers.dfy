/** Failure-carrying wrappers used for Go's `(value, error)` returns and nil-able results. */
module Wrappers {

  /** A value that may be absent. */
  datatype Option<+T> = None | Some(value: T)

  /** A computed value, or the error that replaced it. */
  datatype Result<+T, +E> = Success(value: T) | Failure(error: E)

  /** The outcome of an operation that returns only an error (nil on success). */
  datatype Outcome<+E> = Pass | Fail(error: E)
}
