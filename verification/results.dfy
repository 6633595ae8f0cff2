/** Failure-carrying wrappers used by the parsers and the wizard. */
module Results {

  /** A value that may be absent (JavaScript's `undefined`, Python's `None`). */
  datatype Option<+T> = None | Some(value: T)

  /** The outcome of an operation that can throw. */
  datatype Result<+T, +E> = Ok(value: T) | Err(error: E)
}
