/** The optional value used for every cell and record field: `None` stands for
    JavaScript's `null` / `undefined`, `Some(v)` for a present string. */
module Wrappers {

  datatype Option<+T> = None | Some(value: T) {

    /** `x ?? d`: the value if present, `d` otherwise. */
    function GetOr(default: T): T {
      match this
      case Some(v) => v
      case None => default
    }
  }
}
