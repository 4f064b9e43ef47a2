/** Failure-carrying values used by every operation of the model. */
module Wrappers {

  /** A value that may be absent (Java's null, or a parse that found nothing). */
  datatype Option<+T> = None | Some(value: T)

  /** Either the value an operation produced or the error it raised. */
  datatype Result<+T, +E> = Ok(value: T) | Err(error: E)
}
