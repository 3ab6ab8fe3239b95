/** Failure-carrying result types shared by the model. */
module Wrappers {

  /** A value that may be absent: JavaScript's `null`/`undefined` results. */
  datatype Option<+T> = None | Some(value: T)

  /** A computed value, or the error an operation threw. */
  datatype Result<+T, +E> = Success(value: T) | Failure(error: E)

  /** Success without a value, or the error an operation threw. */
  datatype Outcome<+E> = Pass | Fail(error: E)
}
