/** Null-able values and error returns of the .NET code, as datatypes. */
module Wrappers {

  /** A reference that may be null: `None` stands for `null`. */
  datatype Option<+T> = None | Some(value: T) {

    /** The value, or `default` for null (C#'s `x ?? default`). */
    function GetOr(default: T): T {
      match this
      case Some(v) => v
      case None => default
    }
  }

  /** A call that either returns a value or throws `error`. */
  datatype Result<+T, +E> = Success(value: T) | Failure(error: E)
}
