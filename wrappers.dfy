/** Failure-carrying values shared by every module of the model. */
module Wrappers {

  /** A value that may be absent: a missing JSON key, an empty CSV cell, a SQL NULL. */
  datatype Option<+T> = None | Some(value: T)

  /** The outcome of an operation that raises in the source: `Err` carries the exception. */
  datatype Result<+T, +E> = Ok(value: T) | Err(error: E)
}
