/** The optional-value datatype shared by every module of the model.
    `None` plays the part of JavaScript's `null` (and of `undefined` where a
    lookup misses). */
module Wrappers {

  datatype Option<+T> = None | Some(value: T) {

    /** Returns the wrapped value, or `default` when there is none. */
    function GetOr(default: T): T {
      match this
      case Some(v) => v
      case None => default
    }
  }
}
