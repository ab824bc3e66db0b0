/** Option and Result, the two failure-carrying datatypes the model uses. */
module Wrappers {

  datatype Option<+T> = None | Some(value: T)

  /** A computation that either produced a value or failed with an error message. */
  datatype Result<+T, +E> = Success(value: T) | Failure(error: E)
}
