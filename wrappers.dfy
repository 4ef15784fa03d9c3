/** Option and Result values for the operations of the model that can fail. */
module Wrappers {

  datatype Option<+T> = None | Some(value: T)

  datatype Result<+T, +E> = Success(value: T) | Failure(error: E)

  /** A step that either completes or fails with an error and no value. */
  datatype Outcome<+E> = Pass | Fail(error: E)
}
