/** Shared value types: the nullable-reference wrapper and the outcome of an
    operation that may throw one of the .NET exceptions the library raises. */
module Wrappers {

  /** A reference that may be null (None) or set (Some). */
  datatype Option<+T> = None | Some(value: T)

  /** The exceptions the modelled code throws, named after their .NET types.
      `param` is the argument name the source passes to the exception, and empty
      when it passes only a message. */
  datatype Exception =
    | ArgumentNull(param: string)
    | Argument(param: string)
    | ConfigurationErrors
    | Format
    | IndexOutOfRange
    | NullReference
    | InvalidOperation

  /** Either the value an operation returns or the exception it throws. */
  datatype Result<+T> = Ok(value: T) | Err(error: Exception)
}
