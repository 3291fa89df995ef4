/** Failure-carrying result types shared by the whole model. */
module Wrappers {

  /** A value that may be absent (Python's `None`). */
  datatype Option<+T> = None | Some(value: T)

  /** The outcome of a check that either passes or raises a validation error. */
  datatype Outcome<+E> = Pass | Fail(error: E)

  /** A value computed by a check that may raise a validation error instead. */
  datatype Result<+T, +E> = Ok(value: T) | Err(error: E)
}
