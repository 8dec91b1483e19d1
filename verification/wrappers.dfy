/** The Some/None datatype used for every "no match" result of the scanner core. */
module Wrappers {

  /** `None` stands for Python's `None`: an absent argument or an unrecognised scan. */
  datatype Option<+T> = None | Some(value: T) {

    /** Returns the value held in Some, or `default` for None */
    function GetOr(default: T): T {
      match this
      case Some(v) => v
      case None => default
    }
  }
}
