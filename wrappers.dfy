/** Failure-carrying values: the model's stand-in for `undefined` results and thrown errors. */
module Wrappers {

  datatype Option<+T> = None | Some(value: T)

  /** The outcome of an operation that either completes or throws `error`. */
  datatype Outcome<+E> = Pass | Fail(error: E)

  /** The outcome of an operation that returns `value` or throws `error`. */
  datatype Result<+R, +E> = Success(value: R) | Failure(error: E)
}
