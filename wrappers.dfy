/** Stock optional-value and result datatypes used by the rest of the model. */
module Wrappers {

  /** A value that may be absent: a PHP `null`, `false` or an empty match array. */
  datatype Option<+T> = None | Some(value: T)

  /** The outcome of an operation that either succeeds or throws. */
  datatype Result<+T, +E> = Ok(value: T) | Err(error: E)
}
