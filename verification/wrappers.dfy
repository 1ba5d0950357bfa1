/** The optional-value wrapper shared by the modules of this model: it stands for
    JavaScript's null/undefined and for Ruby's falsy nil or false where an optional
    page is tested with `if`. */
module Wrappers {

  datatype Option<+T> = None | Some(value: T) {

    /** Returns the value held in Some, or the given default for None. */
    function GetOr(default: T): T {
      match this
      case Some(v) => v
      case None => default
    }
  }
}
