/** The Option type used wherever the Python code returns None or raises on a
    missing or malformed value. */
module Wrappers {

  datatype Option<+T> = None | Some(value: T) {

    /** The value held, or a default when there is none (Python's `d.get(k, default)`). */
    function GetOr(default: T): T {
      match this
      case Some(v) => v
      case None => default
    }

    /** The value as a list of at most one element. */
    function ToSeq(): (r: seq<T>)
      ensures |r| <= 1 && (r == [] <==> None?)
    {
      match this
      case Some(v) => [v]
      case None => []
    }
  }
}
