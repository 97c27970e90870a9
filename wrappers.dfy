/** The optional value used where Python returns `None` for "absent". */
module Wrappers {

  datatype Option<T> = None | Some(value: T) {

    /** The carried value, or `default` when absent (Python's `d.get(k, default)` idiom). */
    function GetOr(default: T): T
    {
      match this
      case Some(v) => v
      case None => default
    }
  }
}
