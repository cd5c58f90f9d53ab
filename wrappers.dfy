/** Failure-compatible result types used across the model. */
module Wrappers {

  /** A value that may be absent: a failed lookup or a failed decode. */
  datatype Option<+T> = None | Some(value: T)

  /** The outcome of an operation that can raise an exception. */
  datatype Result<+R, +E> = Success(value: R) | Failure(error: E)
}
