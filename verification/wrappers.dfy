/** The optional value used wherever the program reads a configuration key
    with a default, looks a column up in a row, or parses text that may be
    malformed. */
module Wrappers {

  datatype Option<+T> = None | Some(value: T) {

    /** The wrapped value, or `default` when there is none. */
    function GetOr(default: T): T {
      match this
      case Some(v) => v
      case None => default
    }
  }
}
