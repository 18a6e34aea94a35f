/** Optional values, used for the nullable job handle of the view model. */
module Wrappers {

  datatype Option<+T> = None | Some(value: T)

  /** The elements an optional value holds: none, or the one it carries. */
  function Elements<T>(o: Option<T>): (s: set<T>)
    ensures o.None? <==> s == {}
    ensures o.Some? ==> s == {o.value}
  {
    match o
    case None => {}
    case Some(v) => {v}
  }
}
