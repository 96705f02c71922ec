/** Option and result types shared by the whole model. */
module Wrappers {

  /** A value that may be absent: Python's `None` versus a present value. */
  datatype Option<+T> = None | Some(value: T) {
    function GetOr(default: T): T {
      match this
      case Some(v) => v
      case None => default
    }
  }

  /** The outcome of a call that may raise: the value, or the exception's message. */
  datatype Result<+T, +E> = Success(value: T) | Failure(error: E)
}
