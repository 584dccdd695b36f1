/** A value that may be missing, as a Python `dict.get` lookup or a `None` default gives it. */
module Wrappers {

  datatype Option<+T> = None | Some(value: T) {

    /** `d.get(key, default)`: the value when present, otherwise `default`. */
    function GetOr(default: T): T {
      match this
      case Some(v) => v
      case None => default
    }
  }
}
