/** Optional values and results with an error side, used wherever the source
    has a `None` or raises an exception. */
module Wrappers {

  datatype Option<+T> = None | Some(value: T) {
    function GetOr(default: T): T
    {
      match this
      case Some(v) => v
      case None => default
    }

    /** This value if present, otherwise `other`. */
    function OrElse(other: Option<T>): Option<T>
    {
      if Some? then this else other
    }
  }

  datatype Result<+T, +E> = Ok(value: T) | Err(error: E)
}
