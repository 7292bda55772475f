/** Failure-compatible datatypes shared by every module. */
module Wrappers {
  /** A value that may be absent. For the operations of this project that can only panic, None is the panic. */
  datatype Option<+T> = None | Some(value: T) {
    predicate IsFailure() {
      None?
    }

    function PropagateFailure<U>(): Option<U>
      requires None?
    {
      None
    }

    function Extract(): T
      requires Some?
    {
      value
    }
  }

  /** The three ways a fallible function can end: a value, an error value, or a panic. */
  datatype Outcome<+T, +E> = Ok(value: T) | Err(error: E) | Panic {
    predicate IsFailure() {
      !Ok?
    }

    function PropagateFailure<U>(): Outcome<U, E>
      requires IsFailure()
    {
      if Err? then Outcome<U, E>.Err(error) else Outcome<U, E>.Panic
    }

    function Extract(): T
      requires Ok?
    {
      value
    }
  }

  /** Lifts an operation that can only panic. */
  function OrPanic<T, E>(o: Option<T>): Outcome<T, E> {
    match o
    case None => Panic
    case Some(v) => Ok(v)
  }
}
