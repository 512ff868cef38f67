/** The nullable references of the middleware (a negotiated subprotocol, a
    close status, a received byte array) are modelled as Option values. */
module Wrappers {

  datatype Option<+T> = None | Some(value: T) {

    /** `x ?? y`: the value if present, otherwise the given default. */
    function GetOr(default: T): T {
      match this
      case Some(v) => v
      case None => default
    }
  }
}
