/** The optional value used throughout the model where the source returns
    `None` or may fail to produce something (an unreadable entry, a missing
    archive, no match). */
module Wrappers {

  datatype Option<+T> = None | Some(value: T) {

    /** The wrapped value, or `default` when there is none. */
    function GetOr(default: T): T {
      match this
      case Some(v) => v
      case None => default
    }
  }
}
