/** Optional values and outcomes that may carry an error message. */
module Results {

  datatype Option<+T> = None | Some(value: T)

  /** The outcome of a call that either returns a value or raises with a message. */
  datatype Result<+T> = Ok(value: T) | Err(message: string)
}
