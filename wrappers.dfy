/** Optional values and results with an error kind, in place of JavaScript's
    `undefined`, `null` and the diagnostic-plus-`null` error returns. */
module Wrappers {

  datatype Option<+T> = None | Some(value: T) {

    /** The value, or `default` when there is none (JavaScript's `x || default`
        where the only falsy value of interest is the absent one). */
    function GetOr(default: T): T
    {
      match this
      case Some(v) => v
      case None => default
    }
  }

  datatype Result<+R, +E> = Success(value: R) | Failure(error: E)
}
