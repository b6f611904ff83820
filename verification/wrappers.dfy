/** Option and Result, used across the gallery model. */
module Wrappers {

  /** A value that may be absent: JavaScript's `null`/`undefined` or a failed lookup. */
  datatype Option<+T> = None | Some(value: T) {

    /** The wrapped value, or `default` when absent (the `??` operator). */
    function GetOr(default: T): T {
      match this
      case Some(v) => v
      case None => default
    }
  }

  /** Either a produced value or the reason nothing was produced. */
  datatype Result<+R, +E> = Success(value: R) | Failure(error: E)
}
