/** Option for JavaScript's `undefined`/`null`, and Result for a call that throws. */
module Wrappers {

  datatype Option<+T> = None | Some(value: T) {
    function GetOr(default: T): T {
      match this
      case Some(v) => v
      case None => default
    }
  }

  /** The outcome of a JavaScript call that either returns `value` or throws. */
  datatype Result<+T> = Ok(value: T) | Thrown(reason: string)
}
