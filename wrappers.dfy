/** Option and Result values for the wiki's fallible operations. */
module Wrappers {

  /** A value that may be missing, such as a page whose file cannot be read. */
  datatype Option<+T> = None | Some(value: T)

  /** The outcome of an operation that fails with an error message. */
  datatype Result<+R, +E> = Ok(value: R) | Err(error: E)
}
