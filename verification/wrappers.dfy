/** Failure-carrying datatypes shared by the model: `Option` for JavaScript's
    `undefined`/NaN-or-value results, `Result` for oracle calls that either
    deliver a value or fail with the error's string form. */
module Wrappers {

  datatype Option<+T> = None | Some(value: T) {

    /** Returns the wrapped value, or `default` when there is none. */
    function GetOr(default: T): T {
      match this
      case Some(v) => v
      case None => default
    }
  }

  datatype Result<+R> = Ok(value: R) | Err(error: string)
}
