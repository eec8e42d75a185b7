/** Option and Result, the two failure-carrying datatypes the model uses. */
module Wrappers {

  datatype Option<+T> = None | Some(value: T)

  /** The outcome of an operation that Python lets raise an exception. */
  datatype Result<+R, +E> = Ok(value: R) | Err(error: E)
}
