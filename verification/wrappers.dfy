/** Failure-compatible wrappers: the Kotlin source uses nullable values for
    optional data and exceptions for failures; the model uses these instead. */
module Wrappers {

  /** A value that may be absent (a Kotlin `T?`). */
  datatype Option<+T> = None | Some(value: T)

  /** The outcome of a computation that may throw: either its value or the error. */
  datatype Result<+R, +E> = Success(value: R) | Failure(error: E)
}
