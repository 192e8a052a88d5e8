/** Failure-carrying wrappers shared by the other modules. */
module Outcomes {

  /** A value that may be absent (a Go nil pointer or nil error). */
  datatype Option<+T> = None | Some(value: T)

  /** The outcome of a foreign call: a value, or the error message it returned. */
  datatype Result<+T> = Ok(value: T) | Err(msg: string)
}
