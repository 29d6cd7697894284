/** Option and Result values: the model's stand-ins for Python's None and for exceptions. */
module Wrappers {

  /** A value that may be missing (Python's `None`). */
  datatype Option<+T> = None | Some(value: T)

  /** The outcome of an operation that either succeeds or raises. */
  datatype Result<+T, +E> = Success(value: T) | Failure(error: E)
}
