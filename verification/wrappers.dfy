/** Failure-compatible wrappers shared by the whole model. */
module Wrappers {

  /** An optional value; a missing JSON key of a live event is `None`. */
  datatype Option<+T> = None | Some(value: T)

  /** The outcome of a step that may raise: `Err` carries what was raised. */
  datatype Result<+T, +E> = Ok(value: T) | Err(error: E)
}
