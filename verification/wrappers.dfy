/** Option and Result, the failure-carrying values used throughout the model. */
module Wrappers {

  datatype Option<+T> = None | Some(value: T)

  /** A computation that either produced a value or was rejected/threw with a reason. */
  datatype Result<+T, +E> = Success(value: T) | Failure(error: E)
}
