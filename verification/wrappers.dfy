/** Option and Result, the failure-carrying datatypes used throughout the model. */
module Wrappers {

  /** An optional value: the recognition service's "no match" is None. */
  datatype Option<+T> = None | Some(value: T)

  /** Either a value or the error that a Python `raise` would have carried. */
  datatype Result<+T, +E> = Ok(value: T) | Err(error: E)
}
