/** Failure-compatible wrappers used across the model. */
module Wrappers {

  /** An optional value; PHP's `null` or a missing array entry. */
  datatype Option<+T> = None | Some(value: T)

  /** A value, or the exception an operation throws instead of returning. */
  datatype Result<+T, +E> = Ok(value: T) | Err(error: E)

  /** The outcome of an operation that returns nothing of interest, or throws. */
  datatype Outcome<+E> = Pass | Fail(error: E)
}
