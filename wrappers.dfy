/** Wrappers: a value that may be missing, and a result that may be an error. */
module Wrappers {

  /** A value that may be absent; `None` is the missing-value marker of a cleaned numeric field. */
  datatype Option<+T> = None | Some(value: T) {
    function GetOr(default: T): T {
      match this
      case Some(v) => v
      case None => default
    }
  }

  /** Either a value or the reason it could not be produced. */
  datatype Result<+R, +E> = Ok(value: R) | Err(error: E)
}
