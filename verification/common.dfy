/** Failure-carrying wrappers shared by every module of the model. */
module Common {

  /** A value that may be absent (JavaScript `null`/`undefined`). */
  datatype Option<+T> = None | Some(value: T)

  /** The outcome of an endpoint: a value, or the error response it sends. */
  datatype Result<+T, +E> = Ok(value: T) | Err(error: E)
}
