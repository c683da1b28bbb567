/** Failure-compatible wrappers shared by every module of the model.
    `Option` stands for a C# reference or nullable result that may be null;
    `Result` stands for a computation that returns a value or throws one of
    the .NET exceptions the engine raises. */
module Wrappers {

  datatype Option<+T> = None | Some(value: T) {
    predicate IsFailure() { None? }

    function PropagateFailure<U>(): Option<U>
      requires None?
    {
      None
    }

    function Extract(): T
      requires Some?
    {
      value
    }
  }

  /** The .NET exceptions raised by the engine's core. */
  datatype Exn =
    | DivideByZero
    | ArgumentNull
    | Argument
    | ArgumentOutOfRange
    | InvalidCast
    | InvalidOperation
    | KeyNotFound

  /** A value, or the exception that was thrown instead of returning it. */
  datatype Result<+T> = Ok(value: T) | Throw(error: Exn) {
    predicate IsFailure() { Throw? }

    function PropagateFailure<U>(): Result<U>
      requires Throw?
    {
      Throw(error)
    }

    function Extract(): T
      requires Ok?
    {
      value
    }
  }

  /** What a visit that reports an exception in `thrown` and otherwise
      leaves its state in `s` amounts to. */
  function AsResult<T>(thrown: Option<Exn>, s: T): (r: Result<T>)
    ensures r.Throw? <==> thrown.Some?
    ensures r.Throw? ==> r.error == thrown.value
    ensures r.Ok? ==> r.value == s
  {
    if thrown.Some? then Throw(thrown.value) else Ok(s)
  }
}
