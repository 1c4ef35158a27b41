/** Failure-carrying datatypes shared by the timer and recorder models. */
module Wrappers {

  /** A value that may be absent; models Python's `None` for optional fields. */
  datatype Option<+T> = None | Some(value: T)

  /** The outcome of an operation that may raise: `Failure` carries the exception. */
  datatype Result<+R, +E> = Success(value: R) | Failure(error: E)
}
