/** Failure-carrying results used throughout the model. */
module Wrappers {

  /** A value that may be absent: a Go call returning nil, or a library call that fails. */
  datatype Option<+T> = None | Some(value: T)

  /** Either a value or the error that stopped it from being computed. */
  datatype Result<+T, +E> = Success(value: T) | Failure(error: E)
}
