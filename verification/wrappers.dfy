/** Failure-compatible wrappers shared by the whole model.
    `Option` mirrors Rust's `Option`; `Result.Panic` stands for a Rust panic
    (an `unwrap()` on `None`, a remainder by zero), so that the model can say
    exactly when the game would abort instead of forbidding those inputs. */
module Wrappers {

  datatype Option<+T> = None | Some(value: T)

  datatype Result<+T> = Ok(value: T) | Panic(reason: string) {

    predicate IsFailure() {
      Panic?
    }

    function PropagateFailure<U>(): Result<U>
      requires Panic?
    {
      Panic(reason)
    }

    function Extract(): T
      requires Ok?
    {
      value
    }
  }

  const UnwrapNone := "called `Option::unwrap()` on a `None` value"
  const IndexOutOfBounds := "index out of bounds"
  const RemainderByZero := "attempt to calculate the remainder with a divisor of zero"

  /** Rust's `Option::unwrap`: the value, or a panic. */
  function Unwrap<T>(o: Option<T>): (r: Result<T>)
    ensures r.Ok? <==> o.Some?
    ensures r.Ok? ==> r.value == o.value
  {
    match o
    case Some(v) => Ok(v)
    case None => Panic(UnwrapNone)
  }
}
