/** Option and Result, the two failure-carrying datatypes the rest of the model uses
    for the source's nullable values and thrown exceptions. */
module Wrappers {

  datatype Option<+T> = None | Some(value: T) {
    /** The value, or `default` when absent (C#'s `x ?? default`). */
    function GetOr(default: T): T {
      match this
      case Some(v) => v
      case None => default
    }
  }

  /** The exceptions the modelled code throws, by .NET type. */
  datatype Error =
    | ArgumentOutOfRange(param: string)   // ArgumentOutOfRangeException
    | ArgumentNull(param: string)         // ArgumentNullException
    | ArgumentBlank(param: string)        // ArgumentException for a null or white-space string
    | InvalidOperation(message: string)   // InvalidOperationException
    | IndexOutOfRange                     // list or array index past the end
    | OperationFaulted                    // an exception raised by a caller-supplied operation

  datatype Result<+T> = Ok(value: T) | Err(error: Error)
}
