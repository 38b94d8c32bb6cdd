/** Failure-compatible wrappers used across the model: an optional value, a value
    or an error (a raised Python exception), and a pass/fail outcome for checks
    that return nothing on success. */
module Wrappers {

  datatype Option<+T> = None | Some(value: T)

  datatype Result<+T, +E> = Ok(value: T) | Err(error: E)

  datatype Outcome<+E> = Pass | Fail(error: E)

  /** The Python exceptions the modelled code raises, with their messages. */
  datatype PyError =
    | AttributeError(message: string)
    | TypeError(message: string)
    | FileNotFoundError(message: string)
    | ValueError(message: string)
}
