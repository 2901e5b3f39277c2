/** Failure-carrying datatypes shared by the validator and the builder. */
module Results {

  /** An optional value, used where a pattern may or may not match. */
  datatype Option<+T> = None | Some(value: T)

  /** Either a value or the error that stopped the computation. */
  datatype Result<+T, +E> = Ok(value: T) | Err(error: E)

  /** A pass/fail verdict that carries no value on success. */
  datatype Outcome<+E> = Pass | Fail(error: E)
}
