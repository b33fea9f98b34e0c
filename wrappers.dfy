/** Optional-value and result datatypes used across the model. */
module Wrappers {

  /** An optional value, for Python's `None`-or-value. */
  datatype Option<+T> = None | Some(value: T)

  /** A value or the error that the source would raise instead. */
  datatype Result<+R, +E> = Success(value: R) | Failure(error: E)
}
