/** Optional values, for Go's nil pointers. */
module Wrappers {

  datatype Option<T> = None | Some(value: T)
  {
    /** The value, or `d` when there is none. */
    function GetOr(d: T): (r: T)
      ensures Some? ==> r == value
      ensures None? ==> r == d
    {
      match this
      case Some(v) => v
      case None => d
    }
  }
}
