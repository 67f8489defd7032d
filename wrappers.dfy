/** Optional values and results with an error, as the other modules use them. */
module Wrappers {

  datatype Option<+T> = None | Some(value: T) {

    /** The value if there is one, otherwise `default`. */
    function GetOr(default: T): T {
      match this
      case Some(v) => v
      case None => default
    }
  }

  /** The outcome of a computation that may raise: `Err` carries the exception text. */
  datatype Result<+T, +E> = Ok(value: T) | Err(error: E)
}
