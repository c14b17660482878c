/** Failure-carrying return values: the model's stand-in for raised exceptions. */
module Wrappers {

  datatype Option<+T> = None | Some(value: T)

  /** Either the value an operation returns or the error it raises. */
  datatype Result<+T, +E> = Ok(value: T) | Err(error: E)
}
