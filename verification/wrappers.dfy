/** Failure-carrying datatypes: a value that may be absent, and the outcome of an operation
    that may raise one of the scripts' exceptions. */
module Wrappers {

  /** A value that may be absent: a file that does not exist, a pattern that did not match. */
  datatype Option<+T> = None | Some(value: T)

  /** The outcome of an operation that can raise: a value, or the error it raised. */
  datatype Result<+R, +E> = Ok(value: R) | Err(error: E)
}
