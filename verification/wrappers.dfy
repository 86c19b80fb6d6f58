/** Failure-compatible wrappers used throughout the model: `Option` for values
    that may be absent (an unset preference, a file that was not written) and
    `Result` for operations that either produce a value or fail. */
module Wrappers {

  datatype Option<+T> = None | Some(value: T) {

    /** The wrapped value, or `default` when there is none. */
    function GetOr(default: T): T {
      match this
      case Some(v) => v
      case None => default
    }
  }

  datatype Result<+R, +E> = Ok(value: R) | Err(error: E)
}
