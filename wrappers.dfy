/** Failure-carrying datatypes shared by every module: the JVM exceptions that the
    library throws become values of `Exception`, and a call that may throw returns
    a `Result`. */
module Wrappers {

  /** The exception classes the modelled code throws or lets through. `Thrown(id)`
      stands for an exception raised by code outside the model (a user callback,
      a `Closeable.close`, a nested decoder); `id` tells two of them apart. */
  datatype Exception =
    | IllegalArgument
    | IllegalState
    | IndexOutOfBounds
    | UnsupportedOperation
    | Arithmetic
    | NumberFormat
    | Assertion
    | MissingBytes
    | LocaleNotFound
    | Thrown(id: nat)

  datatype Option<+T> = None | Some(value: T) {
    predicate IsFailure() { None? }
    function PropagateFailure<U>(): Option<U> requires None? { None }
    function Extract(): T requires Some? { value }
  }

  datatype Result<+T> = Ok(value: T) | Err(error: Exception) {
    predicate IsFailure() { Err? }
    function PropagateFailure<U>(): Result<U> requires Err? { Err(error) }
    function Extract(): T requires Ok? { value }
  }

  /** Kotlin's `require(cond)`: `IllegalArgumentException` when `cond` is false. */
  function Require(cond: bool): (r: Result<()>)
    ensures r.Ok? <==> cond
    ensures r.Err? ==> r.error == IllegalArgument
  {
    if cond then Ok(()) else Err(IllegalArgument)
  }

  /** Kotlin's `check(cond)`: `IllegalStateException` when `cond` is false. */
  function Check(cond: bool): (r: Result<()>)
    ensures r.Ok? <==> cond
    ensures r.Err? ==> r.error == IllegalState
  {
    if cond then Ok(()) else Err(IllegalState)
  }
}
