/** Option and Result, the shapes used for the source's nulls and exceptions. */
module Wrappers {

  /** A Java reference that may be null. */
  datatype Option<+T> = None | Some(value: T) {
    function GetOr(default: T): T {
      match this
      case Some(v) => v
      case None => default
    }
  }

  /** The outcome of an operation that either completes or fails with an error. */
  datatype Status<+E> = Done | Failed(error: E)
}
