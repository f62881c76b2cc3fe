/** The Option type used throughout the model for values that may be absent
    (SQL NULL, `undefined`, a failed lookup). */
module Wrappers {

  datatype Option<+T> = None | Some(value: T) {

    /** Returns the value, or `default` when absent. */
    function GetOr(default: T): T {
      match this
      case Some(v) => v
      case None => default
    }
  }
}
