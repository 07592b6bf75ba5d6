/** Optional values and the outcome of a call into the wireless transport. */
module Wrappers {

  /** A JavaScript value that may be `undefined`/`null`, or a present value. */
  datatype Option<+T> = None | Some(value: T) {

    /** The value, or `default` when absent (the `??` operator). */
    function GetOr(default: T): T {
      match this
      case Some(v) => v
      case None => default
    }
  }

  /** What an awaited transport call did: resolved with a value, or threw an
      error carrying a message. */
  datatype Attempt<+T> = Ok(value: T) | Threw(message: string)
}
