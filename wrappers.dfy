/** Option and Result, the two failure-carrying shapes used across the model. */
module Wrappers {

  /** Python's `Optional[T]`: a value or `None`. */
  datatype Option<+T> = None | Some(value: T)

  /** A successful value, or the error an endpoint raises instead. */
  datatype Result<+T, +E> = Ok(value: T) | Err(error: E)
}
