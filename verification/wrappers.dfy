/** Optional values (a nullable column or a missing join partner) and
    results that may carry a fault instead of a value. */
module Wrappers {

  /** `None` plays the role of a SQL NULL or of a C# `null` reference. */
  datatype Option<+T> = None | Some(value: T) {

    /** The wrapped value, or `default` when there is none (C#'s `??`). */
    function GetOr(default: T): T {
      match this
      case Some(v) => v
      case None => default
    }
  }

  /** Either the value an action computed or the fault it raised. */
  datatype Result<+R, +E> = Success(value: R) | Failure(error: E)
}
