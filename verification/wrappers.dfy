/** The optional-value datatype used throughout the model for JavaScript's
    `undefined`/`null` results (a missing attribute, a failed lookup, a
    `split(':')` part that is not there). */
module Wrappers {

  datatype Option<+T> = None | Some(value: T) {

    /** The value, or `default` when there is none (JavaScript's `x ?? d`). */
    function GetOr(default: T): T {
      match this
      case Some(v) => v
      case None => default
    }
  }
}
