/** Failure-compatible wrappers used by the model for absent values and raised errors. */
module Wrappers {

  /** A value that may be missing, as a search that can come back empty. */
  datatype Option<+T> = None | Some(value: T)

  /** The outcome of an operation that the program lets raise an exception. */
  datatype Result<+R, +E> = Success(value: R) | Failure(error: E)
}
