/** Option, for Python's `None`-or-value results. */
module Wrappers {

  datatype Option<T> = None | Some(value: T)

  /** The list holding the value, if there is one. */
  function Emitted<T>(o: Option<T>): (s: seq<T>)
    ensures |s| <= 1
    ensures o.None? <==> s == []
    ensures o.Some? ==> s == [o.value]
  {
    if o.Some? then [o.value] else []
  }
}
