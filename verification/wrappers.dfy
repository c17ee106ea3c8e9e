/** Optional values, used for the Go `error` returns that may be nil. */
module Wrappers {

  datatype Option<+T> = None | Some(value: T)

  /** The zero-or-one element sequence holding the value of `o`, if any. */
  function ToSeq<T>(o: Option<T>): (s: seq<T>)
    ensures |s| <= 1
    ensures o.None? <==> s == []
    ensures o.Some? ==> s == [o.value]
  {
    match o
    case None => []
    case Some(v) => [v]
  }
}
