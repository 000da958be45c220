/** Failure-compatible result types shared by every module of the model. */
module Wrappers {

  /** A value that may be missing: JavaScript's `undefined`/`null` or a failed lookup. */
  datatype Option<+T> = None | Some(value: T)

  /** The outcome of an operation that can fail with an error value. */
  datatype Result<+R, +E> = Success(value: R) | Failure(error: E)
}
