/** Failure-compatible wrappers used throughout the model: `Option` stands for
    a JavaScript value that may be `undefined`, `Result` for a call that may
    throw. */
module Wrappers {

  datatype Option<+T> = None | Some(value: T) {

    /** Returns the wrapped value, or `default` when there is none. */
    function GetOr(default: T): T {
      match this
      case Some(v) => v
      case None => default
    }
  }

  datatype Result<+T, +E> = Ok(value: T) | Err(error: E)
}
