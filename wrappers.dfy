/** Optional values and pass/fail outcomes, used throughout the model. */
module Wrappers {

  /** An optional value: a field that may be left out, or a lookup that may find nothing. */
  datatype Option<T> = None | Some(value: T) {

    /** The value, or `default` when there is none. */
    function GetOr(default: T): T {
      match this
      case Some(v) => v
      case None => default
    }
  }

  /** The result of an operation that returns nothing on success. */
  datatype Outcome<E> = Pass | Fail(error: E)
}
