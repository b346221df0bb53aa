/** Failure-carrying wrappers shared by the account modules. */
module Common {

  /** A row that a lookup may or may not find (`Optional[...]` in the repository). */
  datatype Option<+T> = None | Some(value: T)

  /** The outcome of an operation that can raise: a value, or the error it raises. */
  datatype Result<+T, +E> = Ok(value: T) | Err(error: E)
}
