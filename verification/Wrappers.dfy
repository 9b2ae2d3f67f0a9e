/** The option type that stands for the source's "modified flag plus staged value" pairs. */
module Wrappers {

  datatype Option<+T> = None | Some(value: T) {

    /** The staged value when there is one, otherwise the given current value. */
    function GetOr(current: T): T {
      match this
      case Some(v) => v
      case None => current
    }
  }
}
