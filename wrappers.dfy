/** Failure-compatible result types shared by every module of the model. */
module Wrappers {

  /** A value that may be absent, the model's stand-in for JavaScript's `null` and `undefined`. */
  datatype Option<+T> = None | Some(value: T)

  /** The outcome of an operation that either produces a value or rejects with an error. */
  datatype Result<+T, +E> = Ok(value: T) | Err(error: E)
}
