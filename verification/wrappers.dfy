/** Failure-carrying return values shared by the route handlers. */
module Wrappers {

  datatype Option<+T> = None | Some(value: T)

  /** A handler's answer: a value on success, an error otherwise. */
  datatype Result<+T, +E> = Ok(value: T) | Err(error: E)

  /** A handler's answer when success carries no value. */
  datatype Outcome<+E> = Pass | Fail(error: E)
}
