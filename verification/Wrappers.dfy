/** Failure-carrying results used across the model. */
module Wrappers {

  datatype Option<+T> = None | Some(value: T)

  /** `Failure` stands for an exception raised by the original code. */
  datatype Result<+T, +E> = Success(value: T) | Failure(error: E)
}
