/** Failure-aware result types shared by every module of the model.
    A Java/Kotlin `null` becomes `None`; a thrown exception becomes `Failure`. */
module Wrappers {

  datatype Option<+T> = None | Some(value: T) {
    /** The value, or `default` when absent (the `?:` of the source). */
    function GetOr(default: T): T {
      match this
      case Some(v) => v
      case None => default
    }
  }

  datatype Result<+T, +E> = Success(value: T) | Failure(error: E)
}
