/** Failure-carrying values used throughout the model. */
module Wrappers {

  /** A value that may be missing: JavaScript's `undefined`, or a failed parse. */
  datatype Option<+T> = None | Some(value: T)

  /** The outcome of an operation that either produces a value or throws an error
      carrying a human-readable message. */
  datatype Result<+R, +E> = Success(value: R) | Failure(error: E)
}
