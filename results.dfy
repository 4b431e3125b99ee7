/** Failure-carrying values: a missing value, and a value or an error. */
module Results {

  datatype Option<+T> = None | Some(value: T)

  datatype Result<+T, +E> = Ok(value: T) | Err(error: E)

  /** The outcome of an operation that produces no value. */
  datatype Outcome<+E> = Pass | Fail(error: E)
}
