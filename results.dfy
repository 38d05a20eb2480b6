/** Success-or-error values standing in for the Java exceptions of the model. */
module Results {

  /** An operation that yields a value or fails with an error. */
  datatype Result<+T, +E> = Ok(value: T) | Err(error: E)

  /** A value that may be absent. */
  datatype Option<+T> = None | Some(value: T)

  /** An operation that only changes state, or fails with an error. */
  datatype Outcome<+E> = Done | Fail(error: E)
}
