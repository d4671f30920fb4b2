/** JavaScript's `undefined` in the places where the library may or may not
    produce a value: a read past the end of an array, a missing property,
    an argument the caller left out. */
module Wrappers {

  datatype Option<+T> = None | Some(value: T) {

    /** Reads a possibly missing value, substituting `fallback` for
        undefined. */
    function GetOr(fallback: T): T {
      match this
      case Some(v) => v
      case None => fallback
    }
  }
}
