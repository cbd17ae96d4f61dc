/** Optional values and the exceptions the reconciliation layer raises. */
module Wrappers {

  /** Python's `None` or a value. */
  datatype Option<+T> = None | Some(value: T)

  /** The exception classes raised by the modelled code. */
  datatype Error =
    | KeyError    // unknown project name, or a code `get_mapping` cannot place
    | ValueError  // upload requested for a language that is not local
    | TypeError   // `join` given a failed mapping that has no code at all

  /** A value, or the exception that was raised instead of returning it. */
  datatype Result<+T> = Ok(value: T) | Err(error: Error)
}
