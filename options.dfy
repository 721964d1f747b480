/** Small wrappers for the Java code's `null` returns and thrown exceptions. */
module Options {

  /** A reference that may be `null`. */
  datatype Option<+T> = None | Some(value: T)

  /** Either a normally returned value or the exception that was thrown instead. */
  datatype Result<+T, +E> = Ok(value: T) | Err(error: E)
}
