/** Failure-carrying datatypes shared by the modules of this model. */
module Wrappers {

  /** A value that may be absent, as a Python dictionary lookup may be. */
  datatype Option<+T> = None | Some(value: T)

  /** The outcome of an operation that either returns a value or raises an error. */
  datatype Result<+T, +E> = Ok(value: T) | Err(error: E)
}
