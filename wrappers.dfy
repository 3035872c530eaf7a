/** Option and Result, the failure-carrying values used across the model. */
module Wrappers {

  datatype Option<+T> = None | Some(value: T)

  /** A value or the exception the C++ code would throw instead. */
  datatype Result<+R, +E> = Success(value: R) | Failure(error: E)
}
