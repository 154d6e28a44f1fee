/** Optional values and results, used where the source has `null`,
    `undefined` or a thrown error. */
module Wrappers {

  datatype Option<+T> = None | Some(value: T) {

    /** The value, or `default` when there is none (JavaScript's `??`). */
    function GetOr(default: T): T {
      match this
      case Some(v) => v
      case None => default
    }
  }

  /** Either a value or the message of the error that was thrown. */
  datatype Result<+R> = Success(value: R) | Failure(message: string)
}
