/** Failure-carrying return values shared by the other modules. */
module Wrappers {

  /** A value that may be missing (Python's `None`). */
  datatype Option<+T> = None | Some(value: T)

  /** An exception the modelled code raises and does not catch. */
  datatype Error = TypeError | ValueError | KeyError

  /** Either a returned value or a raised exception. */
  datatype Result<+T> = Ok(value: T) | Raise(error: Error)
}
