/** Optional values and request outcomes shared by every module of the model. */
module Wrappers {

  /** A JavaScript value that may be `undefined` (or `null`). */
  datatype Option<+T> = None | Some(value: T) {

    /** The value, or `default` when absent (the `x ?? default` pattern). */
    function GetOr(default: T): T {
      match this
      case Some(v) => v
      case None => default
    }
  }

  /** The outcome of a route handler: a payload, or the 404 answer with its message. */
  datatype Result<+T> = Ok(value: T) | NotFound(message: string)
}
