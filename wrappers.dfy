/** Option and Result values used for the "not found" and error paths of the store. */
module Wrappers {

  datatype Option<+T> = None | Some(value: T)

  datatype Result<+R, +E> = Ok(value: R) | Err(error: E)

  /** Success or failure of an operation that has no value to return. */
  datatype Outcome<+E> = Pass | Fail(error: E)
}
