/** Small failure-carrying datatypes shared by the scanner and the line processor. */
module Wrappers {

  /** A value that may be absent. */
  datatype Option<+T> = None | Some(value: T)

  /** Either a value or the error that prevented computing it. */
  datatype Result<+T, +E> = Ok(value: T) | Err(error: E)
}
