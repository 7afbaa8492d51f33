/** Optional values and results with an error message, the model's stand-in for
    JavaScript's `undefined`/`null` and for a thrown `Error`. */
module Wrappers {

  datatype Option<+T> = None | Some(value: T)

  /** `Failure(message)` is an `Error` thrown with that message. */
  datatype Result<+T> = Success(value: T) | Failure(error: string)

  /** The outcome of an operation that returns nothing but may throw. */
  datatype Outcome = Pass | Fail(error: string)
}
