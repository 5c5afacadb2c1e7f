/** An optional value and a success-or-error result, used throughout the model:
    `Option` stands for a JavaScript value that may be `undefined` or `null`,
    `Result` for a call that either returns or throws an error carrying a message. */
module Wrappers {

  datatype Option<+T> = None | Some(value: T) {

    /** The value, or `default` when absent (the `x || default` idiom on a non-falsy `x`). */
    function GetOr(default: T): T {
      match this
      case Some(v) => v
      case None => default
    }
  }

  datatype Result<+R, +E> = Success(value: R) | Failure(error: E)
}
