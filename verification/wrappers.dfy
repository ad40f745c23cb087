/** The optional-value datatype used for the source's optional fields
    (`suggestion?`, `explanation?`, `references?`). */
module Wrappers {

  datatype Option<+T> = None | Some(value: T) {

    /** Returns the value in Some, or the given default for None. */
    function GetOr(default: T): T {
      match this
      case Some(v) => v
      case None => default
    }
  }
}
