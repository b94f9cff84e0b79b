/** Optional values: a request field that may be `None`, a lookup that may fail. */
module Wrappers {

  datatype Option<+T> = None | Some(value: T)

  /** SQL's `COALESCE(o, d)`: the supplied value, or `d` when it is `None`. */
  function Coalesce<T>(o: Option<T>, d: T): T
  {
    match o
    case Some(v) => v
    case None => d
  }
}
