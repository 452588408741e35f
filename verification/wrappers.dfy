/** Optional values and error-carrying results, standing in for Java's
    `Optional` and for exceptions that escape an operation. */
module Wrappers {

  datatype Option<+T> = None | Some(value: T)

  datatype Result<+T, +E> = Success(value: T) | Failure(error: E)

  function Max(a: nat, b: nat): nat {
    if a < b then b else a
  }
}
