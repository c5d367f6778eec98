/** Option and Result values, standing in for `null` returns and thrown errors. */
module Wrappers {

  datatype Option<+T> = None | Some(value: T)

  /** The outcome of a handler: its return value, or the error it throws. */
  datatype Result<+T, +E> = Ok(value: T) | Err(error: E)
}
