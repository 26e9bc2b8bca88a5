/** The outcome of one call to a decoder (`Decoder.State`): the decoded value, a
    request for more bytes, or the failure that stopped decoding, together with
    the operations that map and read such an outcome. */
module DecoderState {
  import opened Wrappers

  /** `Done(value)`, the `Processing` object, or `Error(error)`. */
  datatype State<+T> = Done(value: T) | Processing | Error(error: Exception)

  /** `mapEmptyState()`: a state that carries no value, retyped; a `Done` state
      cannot be retyped and throws `IllegalStateException`. */
  function MapEmptyState<T, R>(s: State<T>): (r: Result<State<R>>)
    ensures r.Err? <==> s.Done?
    ensures r.Err? ==> r.error == IllegalState
    ensures s.Processing? ==> r == Ok(Processing)
    ensures s.Error? ==> r == Ok(Error(s.error))
  {
    match s
    case Done(_) => Err(IllegalState)
    case Processing => Ok(Processing)
    case Error(e) => Ok(Error(e))
  }

  /** `mapState(block)`: `block` on the value of a `Done` state; any other state is
      passed on through `mapEmptyState`, which cannot throw there. */
  function MapState<T, R>(s: State<T>, block: T -> State<R>): (r: State<R>)
  {
    if s.Done? then block(s.value) else MapEmptyState<T, R>(s).value
  }

  /** `mapResult(block)`: `mapState { Done(block(it)) }`. */
  function MapResult<T, R>(s: State<T>, block: T -> R): (r: State<R>)
  {
    MapState(s, (v: T) => Done(block(v)))
  }

  /** `isDone()`. */
  predicate IsDone<T>(s: State<T>)
  {
    s.Done?
  }

  /** `isNotDone()`. */
  predicate IsNotDone<T>(s: State<T>)
  {
    !s.Done?
  }

  /** `get()`: the value of a `Done` state; `MissingBytesException` on
      `Processing`; the state's own exception on `Error`. */
  function Get<T>(s: State<T>): (r: Result<T>)
  {
    match s
    case Done(v) => Ok(v)
    case Processing => Err(MissingBytes)
    case Error(e) => Err(e)
  }

  /** `getOrNull()`. */
  function GetOrNull<T>(s: State<T>): (r: Option<T>)
  {
    if s.Done? then Some(s.value) else None
  }

  /** `getOrElse(default)`, and `getOrElse { default }` with the factory's result. */
  function GetOrElse<T>(s: State<T>, default: T): (r: T)
  {
    if s.Done? then s.value else default
  }

  /** `getOrThrow { throwable }`, with the exception the factory returns. */
  function GetOrThrow<T>(s: State<T>, throwable: Exception): (r: Result<T>)
  {
    if s.Done? then Ok(s.value) else Err(throwable)
  }

  /** `mapState` calls `block` exactly on `Done` states, and lets `Processing` and
      `Error` through unchanged. */
  lemma {:induction false} MapStatePassesThrough<T, R>(s: State<T>, block: T -> State<R>)
    ensures s.Done? ==> MapState(s, block) == block(s.value)
    ensures s.Processing? ==> MapState(s, block) == Processing
    ensures s.Error? ==> MapState(s, block) == Error(s.error)
  {
  }

  /** `mapState` is the bind of a monad whose unit is `Done`: a `Done` state is
      bound by applying the block, binding to `Done` changes nothing, and binding
      twice is binding once to the composed block. */
  lemma {:induction false} MapStateMonadLaws<T, R, U>(v: T, s: State<T>, f: T -> State<R>, g: R -> State<U>)
    ensures MapState(Done(v), f) == f(v)
    ensures MapState(s, (x: T) => Done(x)) == s
    ensures MapState(MapState(s, f), g) == MapState(s, (x: T) => MapState(f(x), g))
  {
    match s
    case Done(x) =>
    case Processing =>
    case Error(e) =>
  }

  /** `mapResult(block)` turns `Done(v)` into `Done(block(v))` and keeps the other
      states; mapping with the identity changes nothing and two mappings compose. */
  lemma {:induction false} MapResultFunctor<T, R, U>(s: State<T>, f: T -> R, g: R -> U)
    ensures s.Done? ==> MapResult(s, f) == Done(f(s.value))
    ensures !s.Done? ==> MapResult(s, f) == MapEmptyState<T, R>(s).value
    ensures MapResult(s, (x: T) => x) == s
    ensures MapResult(MapResult(s, f), g) == MapResult(s, (x: T) => g(f(x)))
  {
    match s
    case Done(x) =>
    case Processing =>
    case Error(e) =>
  }

  /** `isDone()` is always the negation of `isNotDone()`. */
  lemma {:induction false} IsDoneNegatesIsNotDone<T>(s: State<T>)
    ensures IsDone(s) == !IsNotDone(s)
    ensures IsDone(s) <==> MapEmptyState<T, T>(s).Err?
  {
  }

  /** The readers agree: `get()` succeeds exactly when `getOrNull()` is not null,
      with the same value, and then `getOrElse` and `getOrThrow` return that value;
      otherwise `getOrElse` returns the default, `getOrThrow` throws the factory's
      exception and `get()` throws `MissingBytesException` for `Processing` and the
      state's exception for `Error`. */
  lemma {:induction false} ReadersAgree<T>(s: State<T>, default: T, throwable: Exception)
    ensures Get(s).Ok? <==> GetOrNull(s).Some?
    ensures Get(s).Ok? ==> Get(s).value == GetOrNull(s).value == GetOrElse(s, default) == s.value
    ensures Get(s).Ok? ==> GetOrThrow(s, throwable) == Get(s)
    ensures GetOrNull(s).None? ==> GetOrElse(s, default) == default && GetOrThrow(s, throwable) == Err(throwable)
    ensures s.Processing? ==> Get(s) == Err(MissingBytes)
    ensures s.Error? ==> Get(s) == Err(s.error)
  {
  }
}
