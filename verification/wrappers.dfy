/** The optional value used for JavaScript's `undefined`-able fields and arguments. */
module Wrappers {

  datatype Option<+T> = None | Some(value: T) {

    /** `x ?? d` / `x || d` on an optional field: the field when present, else `d`. */
    function GetOr(default: T): T {
      match this
      case Some(v) => v
      case None => default
    }
  }
}
