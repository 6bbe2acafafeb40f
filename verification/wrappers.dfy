/** `Option` and `Result` datatypes shared by the other modules. */
module Wrappers {

  /** A possibly absent value; stands for a Java reference that may be `null`. */
  datatype Option<+T> = None | Some(value: T) {

    /** The value held, or `default` when there is none. */
    function GetOr(default: T): (r: T)
      ensures Some? ==> r == value
      ensures None? ==> r == default
    {
      match this
      case Some(v) => v
      case None => default
    }
  }

  /** Either a computed value or the reason the computation was abandoned. */
  datatype Result<+R, +E> = Success(value: R) | Failure(error: E)
}
