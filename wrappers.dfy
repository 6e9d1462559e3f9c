/** Failure-carrying values used in place of Java's Optional and exceptions. */
module Wrappers {

  /** Java's Optional: a value or nothing. */
  datatype Option<+T> = None | Some(value: T)

  /** The outcome of a call that may throw: the value returned, or the message of the exception thrown. */
  datatype Result<+T> = Ok(value: T) | Err(error: string)
}
