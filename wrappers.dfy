/** Swift optionals (`CGPoint?`, `CGRect?`) as a value type. */
module Wrappers {

  datatype Option<+T> = None | Some(value: T) {

    /** The value, or the given fallback when there is none (Swift's `??`). */
    function GetOr(default: T): (r: T)
      ensures Some? ==> r == value
      ensures None? ==> r == default
    {
      match this
      case Some(v) => v
      case None => default
    }
  }
}
