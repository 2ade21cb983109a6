/** Failure-carrying values shared by the model: `Option` for Go's nil-or-value slices and
    `Result` for the `(value, error)` pairs that the external libraries return. */
module Wrappers {

  datatype Option<+T> = None | Some(value: T) {

    /** The carried value, or `default` when there is none. */
    function GetOr(default: T): T {
      match this
      case Some(v) => v
      case None => default
    }
  }

  /** A Go `(value, err)` pair: `Err` carries the error's text. */
  datatype Result<+T> = Ok(value: T) | Err(error: string)
}
