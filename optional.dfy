/** A value that may be absent: Python's `None`, a missing dictionary key, or a call that raised. */
module Optional {
  datatype Option<+T> = None | Some(value: T) {
    function GetOr(default: T): T {
      match this
      case Some(v) => v
      case None => default
    }
  }
}
