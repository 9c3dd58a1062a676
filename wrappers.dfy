/** Option and Result, the two failure-carrying datatypes the model uses. */
module Wrappers {

  /** A value that may be missing: std::optional, or string::npos for a search. */
  datatype Option<+T> = None | Some(value: T)

  /** The outcome of a decode that can fail. */
  datatype Result<+R, +E> = Ok(value: R) | Err(error: E)
}
