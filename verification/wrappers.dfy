/** Failure-compatible wrappers used throughout the model. */
module Wrappers {

  /** A value that may be absent; stands for `T | null` in the source. */
  datatype Option<+T> = None | Some(value: T)

  /** The outcome of a filesystem call: a new value or the error it threw. */
  datatype Result<+R, +E> = Success(value: R) | Failure(error: E)
}
