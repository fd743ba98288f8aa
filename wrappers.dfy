/** Small failure-carrying datatypes shared by the model. */
module Wrappers {

  /** Swift's `Optional` / Python's "no value". */
  datatype Option<+T> = None | Some(value: T) {
    function GetOr(default: T): T {
      match this
      case Some(v) => v
      case None => default
    }
  }

  /** Swallow's `Either`, used by `JSON.arrayOrDictionaryValue`. */
  datatype Either<+L, +R> = Left(left: L) | Right(right: R)
}
