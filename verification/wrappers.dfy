/** The optional value used wherever the scripts return `null`/`undefined` or a search can fail. */
module Wrappers {

  datatype Option<+T> = None | Some(value: T) {

    /** The contained value, or `default` when absent (JavaScript's `a || b` on an optional). */
    function GetOr(default: T): T
    {
      match this
      case Some(v) => v
      case None => default
    }
  }
}
