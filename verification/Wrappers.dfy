/** Failure-carrying values used instead of Python exceptions and message boxes. */
module Wrappers {

  datatype Option<+T> = None | Some(value: T)

  datatype Result<+T, +E> = Ok(value: T) | Err(error: E)

  /** The outcome of an action that returns nothing on success. */
  datatype Outcome<+E> = Pass | Fail(error: E)
}
