/** Option and Result, the failure-carrying values used across the model. */
module Wrappers {

  datatype Option<+T> = None | Some(value: T)

  /** A computation that either produced a value or raised one of the source's errors. */
  datatype Result<+T, +E> = Success(value: T) | Failure(error: E)
}
