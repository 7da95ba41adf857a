/** Optional values and results, shared by every module of the model. */
module Wrappers {

  /** Python's `None` or a value. */
  datatype Option<+T> = None | Some(value: T) {
    function GetOr(default: T): T {
      match this
      case Some(v) => v
      case None => default
    }
  }

  /** A value, or the exception that interrupted its computation. */
  datatype Result<+T, +E> = Ok(value: T) | Err(error: E)
}
