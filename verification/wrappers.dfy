/** Failure-carrying result types shared by the rest of the model. */
module Wrappers {

  /** A value that may be absent. */
  datatype Option<+T> = None | Some(value: T)

  /** Either a value or the error that prevented it, as Go's `(T, error)` pairs. */
  datatype Result<+T, +E> = Success(value: T) | Failure(error: E)
}
