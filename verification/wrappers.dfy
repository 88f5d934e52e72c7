/** Failure-compatible wrappers shared by the other modules. */
module Wrappers {

  /** An optional value: a search that may find nothing. */
  datatype Option<+T> = None | Some(value: T)

  /** The outcome of an operation that may abort with an error. */
  datatype Result<+T, +E> = Ok(value: T) | Err(error: E)
}
