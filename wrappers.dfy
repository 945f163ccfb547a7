/** Optional values: Python's `None` versus a present value. */
module Wrappers {

  datatype Option<+T> = None | Some(value: T) {

    /**
     * The value, or `default` when there is none: Python's `d.get(k, default)`
     * and `x if x is not None else default`. A present falsy value such as 0 is kept.
     */
    function GetOr(default: T): T
    {
      match this
      case Some(v) => v
      case None => default
    }
  }
}
