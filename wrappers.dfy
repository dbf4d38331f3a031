/** The optional value used wherever the agent reads something that may be absent:
    an unset environment variable, a lookup that raised, a status code of `None`. */
module Wrappers {

  datatype Option<+T> = None | Some(value: T) {

    /** The wrapped value, or `default` when there is none. */
    function GetOr(default: T): T {
      match this
      case Some(v) => v
      case None => default
    }
  }
}
