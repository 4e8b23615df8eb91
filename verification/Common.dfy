/** Vocabulary shared by the quoting, routing and execution modules. */
module Common {
  datatype Option<+T> = None | Some(value: T)

  datatype Result<+T, +E> = Ok(value: T) | Err(error: E)

  /** Mints and accounts are compared only for equality. */
  type Mint = string
}
