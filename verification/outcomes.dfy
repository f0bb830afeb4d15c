/** Optional values and success/failure results used across the model. */
module Outcomes {

  /** A value that may be missing, in place of ECMAScript's -1 "not found" index. */
  datatype Option<+T> = None | Some(value: T)

  /** The outcome of an operation that may fail with an error value. */
  datatype Result<+T, +E> = Success(value: T) | Failure(error: E)
}
