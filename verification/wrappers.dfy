/** Failure-carrying wrappers shared by the other modules. */
module Wrappers {

  datatype Option<+T> = None | Some(value: T)

  /** The outcome of a computation that may throw: its value, or the error it threw. */
  datatype Result<+T, +E> = Success(value: T) | Failure(error: E)
}
