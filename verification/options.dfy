/** Failure-carrying wrappers shared by the account and registration modules. */
module Options {

  /** A value that may be absent: a missing form field, a failed lookup or parse. */
  datatype Option<+T> = None | Some(value: T)

  /** Either an accepted value or the reason it was refused. */
  datatype Result<+T, +E> = Ok(value: T) | Err(error: E)
}
