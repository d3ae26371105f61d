/** Failure-compatible wrappers shared by the model. */
module Wrappers {

  /** A value that may be absent: JavaScript's `null`/`undefined` for a field. */
  datatype Option<+T> = None | Some(value: T) {
    function GetOr(default: T): T {
      match this
      case Some(v) => v
      case None => default
    }
  }

  /** The `{ success, error }` shape the data layer returns. */
  datatype Outcome<+T> = Success(value: T) | Failure(error: string)
}
