/** Optional values and thrown errors, the two ways JavaScript code here
    reports "nothing" and "failure". */
module Outcomes {

  /** `undefined` (or `null`) versus a present value. */
  datatype Option<+T> = None | Some(value: T) {

    /** The value, or `default` when absent. */
    function GetOr(default: T): T {
      match this
      case Some(v) => v
      case None => default
    }
  }

  /** The exceptions the modelled code can raise. */
  datatype JsError =
    /** Calling a method on `undefined`, e.g. `undefined.match(...)`. */
    | TypeError

  /** The value of an expression that either returns or throws. */
  datatype Result<+T> = Ok(value: T) | Throws(error: JsError)
}
