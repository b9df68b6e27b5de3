/** Failure-compatible wrappers shared by the relay modules. */
module Wrappers {

  /** A value that may be absent: a JSON key that is missing, or falsy. */
  datatype Option<+T> = None | Some(value: T)

  /** The outcome of an operation that can raise. */
  datatype Result<+T, +E> = Success(value: T) | Failure(error: E)
}
