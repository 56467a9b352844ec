/** Failure-carrying shapes: Option for Python's None, Result and Outcome for a raised exception. */
module Wrappers {
  datatype Option<+T> = None | Some(value: T)

  datatype Result<+T, +E> = Ok(value: T) | Err(error: E)

  /** The result of a call that returns nothing on success. */
  datatype Outcome<+E> = Pass | Fail(error: E)
}
