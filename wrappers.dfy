/** Option and Result: the Python code's `None` results and raised exceptions. */
module Wrappers {

  datatype Option<+T> = None | Some(value: T)

  /** A computation that either returns a value or raises the error `error`. */
  datatype Result<+T, +E> = Success(value: T) | Failure(error: E)
}
