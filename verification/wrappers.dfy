/** Optional values and results shared by every module of the model. */
module Wrappers {

  /** A value that may be absent (`undefined` in TypeScript). */
  datatype Option<+T> = None | Some(value: T) {
    function GetOr(default: T): T {
      match this
      case Some(v) => v
      case None => default
    }
  }

  /** The outcome of an operation that may throw: its value or the thrown error. */
  datatype Result<+T, +E> = Ok(value: T) | Err(error: E)
}
