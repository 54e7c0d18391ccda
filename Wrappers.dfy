/** Optional values, used for JavaScript properties that may be `undefined`
    and for computations that can fail. */
module Wrappers {

  datatype Option<+T> = None | Some(value: T)

  /** Prefixes the value inside `o`, passing `None` through. */
  function Prepend<T>(prefix: seq<T>, o: Option<seq<T>>): (r: Option<seq<T>>)
    ensures r.Some? <==> o.Some?
    ensures r.Some? ==> r.value == prefix + o.value
  {
    match o
    case None => None
    case Some(rest) => Some(prefix + rest)
  }
}
