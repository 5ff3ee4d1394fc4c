/** Optional values, for the places where the bot works with Python's `None`. */
module Wrappers {

  /** Python's `None`, or a value. */
  datatype Option<+T> = None | Some(value: T) {

    /** Returns the value in Some, or `default` when None. */
    function GetOr(default: T): T {
      match this
      case Some(v) => v
      case None => default
    }
  }
}
