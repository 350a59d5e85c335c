/** Failure-carrying wrappers shared by the text model. */
module Wrappers {

  /** An optional value: Swift's `T?`. */
  datatype Option<+T> = None | Some(value: T)
  {
    /** The wrapped value, or `default` when absent: Swift's `x ?? default`. */
    function GetOr(default: T): T
    {
      match this
      case Some(v) => v
      case None => default
    }
  }

  /** A value or the error a `throws` function raises. */
  datatype Result<+R, +E> = Ok(value: R) | Err(error: E)
}
