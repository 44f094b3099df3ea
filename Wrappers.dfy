/** Option and Result, used for the Java null / exception paths of the service. */
module Wrappers {

  datatype Option<+T> = None | Some(value: T)

  /** A value, or the exception that the Java code would have thrown instead. */
  datatype Result<+T, +E> = Ok(value: T) | Err(error: E)
}
