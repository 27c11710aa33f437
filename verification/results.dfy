/** Failure-carrying wrappers used throughout the model: an absent value
    (Python's None) and a value-or-error outcome (a raised exception). */
module Results {

  /** A value that may be absent, as a nullable model field or a dictionary lookup. */
  datatype Option<+T> = None | Some(value: T)

  /** Either a computed value or the error that was raised instead of it. */
  datatype Result<+T, +E> = Ok(value: T) | Err(error: E)
}
