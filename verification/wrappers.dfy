/** Optional values and results with an error, the two shapes every module here uses
    for JavaScript's `null`/`undefined` and for thrown errors or error replies. */
module Wrappers {

  datatype Option<+T> = None | Some(value: T) {
    function GetOr(default: T): T {
      match this
      case Some(v) => v
      case None => default
    }
  }

  datatype Result<+T, +E> = Ok(value: T) | Err(error: E)
}
