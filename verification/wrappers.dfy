/** Option and Result: JavaScript's `null`/`NaN` and a rejected promise or
    thrown error, as values. */
module Wrappers {

  /** A value that may be missing; `None` stands for `null`, `undefined` or `NaN`. */
  datatype Option<+T> = None | Some(value: T) {

    /** The value, or `default` when missing: JavaScript's `x || default` on numbers. */
    function GetOr(default: T): T {
      match this
      case Some(v) => v
      case None => default
    }
  }

  /** The outcome of a call that can throw: `Failed` is a thrown error or a
      rejected promise, whatever its message. */
  datatype Result<+T> = Ok(value: T) | Failed
}
