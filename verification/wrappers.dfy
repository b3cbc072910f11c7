/** Option and Result values used across the fact-memory model. */
module Wrappers {

  /** Python's `None` or a present value. */
  datatype Option<+T> = None | Some(value: T)

  /** A computation that either returns a value or raises the named Python exception. */
  datatype Result<+T> = Ok(value: T) | Err(error: string)
}
