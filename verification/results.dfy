/** Failure-carrying return values, standing in for the exceptions and early
    exits of the two programs. */
module Results {

  /** Either a value or an error describing why none was produced. */
  datatype Result<+T, +E> = Ok(value: T) | Err(error: E)

  /** Either a value or nothing. */
  datatype Option<+T> = None | Some(value: T)
}
