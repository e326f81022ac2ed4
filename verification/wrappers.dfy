/** Failure-carrying values: the model's stand-in for the Python exceptions
    that the modelled code lets propagate or catches. */
module Wrappers {

  datatype Option<+T> = None | Some(value: T)

  /** Ok or an error condition named after the exception that the source raises. */
  datatype Result<+T> = Ok(value: T) | Err(error: string)
}
