/** Optional values: the model's stand-in for PHP's nullable types. */
module Wrappers {

  /** `None` plays the part of PHP's `null`. */
  datatype Option<+T> = None | Some(value: T) {

    /** Returns the value in `Some`, or `default` when there is none. */
    function GetOr(default: T): (r: T)
      ensures Some? ==> r == value
      ensures None? ==> r == default
    {
      match this
      case Some(v) => v
      case None => default
    }
  }
}
