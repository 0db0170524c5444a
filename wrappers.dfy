/** The absent-or-present value used wherever the Python code reads a
    dictionary key that may be missing (`dict.get`) or a value that may be
    `None`. */
module Wrappers {

  datatype Option<+T> = None | Some(value: T) {

    /** Returns the value, or `default` when absent (`d.get(key, default)`). */
    function GetOr(default: T): T {
      match this
      case Some(v) => v
      case None => default
    }
  }
}
