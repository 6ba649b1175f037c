/** Optional values and results with an error path. */
module Wrappers {

  datatype Option<+T> = None | Some(value: T) {
    function GetOr(default: T): T {
      match this
      case Some(v) => v
      case None => default
    }
  }

  /** `Err` stands for a Python exception that reaches the request handler (HTTP 500). */
  datatype Result<+T> = Ok(value: T) | Err(message: string)
}
