/** Failure-carrying wrappers used throughout the model. */
module Wrappers {

  /** A value that may be absent: the model's stand-in for a Java `null`. */
  datatype Option<+T> = None | Some(value: T)

  /** The outcome of an operation that either completes or throws. */
  datatype Result<+R, +E> = Success(value: R) | Failure(error: E)
}
