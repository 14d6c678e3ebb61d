/** The optional value used wherever the source has an absent or falsy value. */
module Wrappers {

  /** `None` stands for a key that is absent (or a value that is `null`/`NaN`). */
  datatype Option<+T> = None | Some(value: T) {

    /** Returns the value if there is one, `default` otherwise. */
    function GetOr(default: T): T {
      match this
      case Some(v) => v
      case None => default
    }
  }
}
