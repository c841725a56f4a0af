/** Failure-carrying values shared by every module of the model. */
module Wrappers {

  /** A Java reference that may be null, or a lookup that may find nothing. */
  datatype Option<+T> = None | Some(value: T)

  /** A computation that either returns a value or throws the exception `error`. */
  datatype Result<+T, +E> = Ok(value: T) | Err(error: E)
}
