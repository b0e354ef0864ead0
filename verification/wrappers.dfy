/** Failure-carrying datatypes shared by the modules of this model. */
module Wrappers {

  /** An optional value: `None` stands for a missing or undefined result. */
  datatype Option<+T> = None | Some(value: T)

  /** A computation that either produced a value or stopped with an error. */
  datatype Result<+T, +E> = Ok(value: T) | Err(error: E)
}
