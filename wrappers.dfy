/** Optional values and success/failure results, the Dafny form of the source's
    nullable returns and its `Result.success` / `Result.error` replies. */
module Wrappers {

  datatype Option<+T> = None | Some(value: T)

  datatype Result<+R, +E> = Success(value: R) | Failure(error: E)

  /** A reply that carries no payload on success (`Result<Void>` in the source). */
  datatype Outcome<+E> = Pass | Fail(error: E)
}
