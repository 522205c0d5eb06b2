/** Swift's optionals (`T?`) as a datatype. */
module Wrappers {

  datatype Option<+T> = None | Some(value: T) {

    /** `x ?? d` in Swift. */
    function GetOr(default: T): T {
      match this
      case Some(v) => v
      case None => default
    }
  }
}
