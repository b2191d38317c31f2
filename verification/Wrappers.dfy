/** Failure-compatible datatypes shared by every module. */
module Wrappers {

  datatype Option<+T> = None | Some(value: T)

  /** A computed value, or the error the source returns instead. */
  datatype Result<+T, +E> = Success(value: T) | Failure(error: E)
}
