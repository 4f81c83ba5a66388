/** The optional value used throughout the model: a pandas cell or label that may be
    missing (NaN/None), a regex match that may fail, a dictionary lookup that may miss. */
module Wrappers {

  datatype Option<+T> = None | Some(value: T) {

    /** The value, or `default` when there is none. */
    function GetOr(default: T): T {
      match this
      case Some(v) => v
      case None => default
    }
  }
}
