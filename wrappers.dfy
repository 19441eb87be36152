/** Optional values, standing for Swift's `T?`. */
module Wrappers {

  datatype Option<T> = None | Some(value: T)

  /** Swift's `x ?? default`. */
  function GetOr<T>(o: Option<T>, default: T): (r: T)
    ensures o.Some? ==> r == o.value
    ensures o.None? ==> r == default
  {
    match o
    case Some(v) => v
    case None => default
  }
}
