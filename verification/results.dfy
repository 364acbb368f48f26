/** Failure-carrying wrappers shared by every module of the model. */
module Results {

  /** A value that may be absent: PHP's `null`, a JavaScript `undefined`. */
  datatype Option<+T> = None | Some(value: T)

  /** The outcome of an operation that may throw: a value, or the exception's message. */
  datatype Result<+T> = Ok(value: T) | Err(message: string)
}
