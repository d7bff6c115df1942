/** Optional values and results standing in for JavaScript's `undefined`/`null`
    and for exceptions that escape a function. */
module Wrappers {

  /** `None` plays the part of JavaScript's `undefined` or `null`. */
  datatype Option<+T> = None | Some(value: T) {

    /** The wrapped value, or `default` when there is none. */
    function GetOr(default: T): T {
      match this
      case Some(v) => v
      case None => default
    }
  }

  /** `Failure` carries an exception that is not caught by the modelled code. */
  datatype Result<+R, +E> = Success(value: R) | Failure(error: E)
}
