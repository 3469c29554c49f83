/** Python's `None` and raised exceptions as values. */
module Wrappers {

  /** A value that may be absent, as Python's `Optional[X]`. */
  datatype Option<+T> = None | Some(value: T)

  /** A value or the exception that was raised instead of producing it. */
  datatype Result<+T, +E> = Success(value: T) | Failure(error: E)
}
