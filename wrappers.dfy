/** Optional values and success/failure results, the Dafny counterparts of Swift's
    `Optional` and `Result<Success, Failure>`. */
module Wrappers {

  datatype Option<+T> = None | Some(value: T) {
    /** Swift's `??` operator. */
    function GetOr(default: T): T {
      match this
      case Some(v) => v
      case None => default
    }
  }

  datatype Result<+T, +E> = Success(value: T) | Failure(error: E)
}
