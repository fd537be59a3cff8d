/** Option and Result: the null references and the caught exceptions of the tools. */
module Wrappers {

  /** A value that may be missing (a C# null). */
  datatype Option<+T> = None | Some(value: T)
  {
    function GetOr(default: T): T
    {
      match this
      case Some(v) => v
      case None => default
    }
  }

  /** A computation that either succeeds or fails with a message (a thrown exception). */
  datatype Result<+T> = Ok(value: T) | Error(message: string)
}
