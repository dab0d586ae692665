/** The optional value used for JavaScript's `undefined`: a missing field,
    a file that could not be read or parsed, an entry the loader skipped. */
module Wrappers {

  datatype Option<+T> = None | Some(value: T) {

    /** The wrapped value, or `default` when there is none. */
    function GetOr(default: T): T {
      match this
      case Some(v) => v
      case None => default
    }
  }
}
