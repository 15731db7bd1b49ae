/** Option and Result, the usual failure-compatible wrappers. `Option` stands for a Java
    reference that may be null; `Result` for a call that returns a value or throws. */
module Wrappers {

  datatype Option<+T> = None | Some(value: T) {
    predicate IsFailure() { None? }

    function PropagateFailure<U>(): Option<U>
      requires None?
    {
      None
    }

    function Extract(): T
      requires Some?
    {
      value
    }
  }

  datatype Result<+R, +E> = Success(value: R) | Failure(error: E) {
    predicate IsFailure() { Failure? }

    function PropagateFailure<U>(): Result<U, E>
      requires Failure?
    {
      Failure(error)
    }

    function Extract(): R
      requires Success?
    {
      value
    }
  }

  /** `Success(prefix + rest)`, or the failure of `rest`: a list built front to back by
      steps that may fail. */
  function Prepend<T, E>(prefix: seq<T>, rest: Result<seq<T>, E>): Result<seq<T>, E>
  {
    if rest.Success? then Success(prefix + rest.value) else rest
  }

  lemma PrependAssoc<T, E>(a: seq<T>, b: seq<T>, rest: Result<seq<T>, E>)
    ensures Prepend(a, Prepend(b, rest)) == Prepend(a + b, rest)
  {
    if rest.Success? {
      assert a + (b + rest.value) == (a + b) + rest.value;
    }
  }
}
