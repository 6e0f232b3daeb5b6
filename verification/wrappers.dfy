/** The optional value and the success-or-error result used across the model. */
module Wrappers {

  /** An optional value: a C pointer that may be NULL. */
  datatype Option<+T> = None | Some(value: T)

  /** The value of an operation that either succeeds or fails with an error. */
  datatype Result<+R, +E> = Success(value: R) | Failure(error: E)
}
