/** Option and Result, standing for Java's nullable references and its
    IllegalArgumentException error path. */
module Wrappers {

  datatype Option<+T> = None | Some(value: T) {
    /** Java's `x != null ? x : d`. */
    function GetOr(d: T): T {
      match this
      case Some(v) => v
      case None => d
    }
  }

  datatype Result<+T, +E> = Ok(value: T) | Err(error: E)

  /** `(if a != null then a else b)`: the newer of two candidate values wins
      when it is present. Used for "last found value" updates. */
  function OrElse<T>(a: Option<T>, b: Option<T>): (r: Option<T>)
    ensures a.Some? ==> r == a
    ensures a.None? ==> r == b
  {
    if a.Some? then a else b
  }
}
