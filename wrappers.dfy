/** Option and Result, the two envelopes the model uses in place of `null`/`undefined`
    and of thrown failure objects. */
module Wrappers {

  /** A value that may be absent (`null` or `undefined` in the source). */
  datatype Option<+T> = None | Some(value: T) {
    function GetOr(default: T): T {
      match this
      case Some(v) => v
      case None => default
    }
  }

  /** The outcome of an operation that can fail: `Failure` carries the `message`
      of the object the source throws or returns with `isSuccess: false`. */
  datatype Result<+T> = Success(value: T) | Failure(message: string)
}
