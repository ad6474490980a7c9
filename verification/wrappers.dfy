/** Failure-carrying datatypes shared by the builder and the compiler. */
module Wrappers {

  /** An optional value, used for optional arguments and for parses that can fail. */
  datatype Option<+T> = None | Some(value: T) {

    /** The carried value, or `default` when there is none. */
    function GetOr(default: T): T {
      match this
      case Some(v) => v
      case None => default
    }
  }

  /** Either a computed value or the error that prevented it; there is no partial result. */
  datatype Result<+R, +E> = Success(value: R) | Failure(error: E)
}
