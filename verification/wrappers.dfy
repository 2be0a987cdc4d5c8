/** Small failure-carrying datatypes used throughout the model. */
module Wrappers {

  /** A value that may be absent (JavaScript `null` / `undefined`). */
  datatype Option<+T> = None | Some(value: T) {

    /** The wrapped value, or `default` when absent (JavaScript `x ?? default`). */
    function GetOr(default: T): T {
      match this
      case Some(v) => v
      case None => default
    }
  }

  /** Either a value or an error describing why the operation stopped. */
  datatype Result<+R, +E> = Ok(value: R) | Err(error: E)
}
