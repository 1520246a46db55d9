/** The Option and Result datatypes used throughout the model. */
module Wrappers {

  datatype Option<+T> = None | Some(value: T)

  /** The outcome of an operation that in the source either returns a value or raises. */
  datatype Result<+T, +E> = Ok(value: T) | Err(error: E)
}
