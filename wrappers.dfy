/** Optional values: the model's reading of a field that may be `undefined`. */
module Wrappers {

  datatype Option<T> = None | Some(value: T) {

    /** The value, or `default` when absent: the `x || 0` reads of the sort comparator. */
    function GetOr(default: T): T {
      match this
      case Some(v) => v
      case None => default
    }
  }
}
