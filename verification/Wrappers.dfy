/** Shared result types. */
module Wrappers {

  datatype Option<+T> = None | Some(value: T)

  /** A call that returns or throws. */
  datatype Outcome<+T> = Returned(value: T) | Threw {

    predicate IsFailure() {
      Threw?
    }

    function PropagateFailure<U>(): Outcome<U>
      requires Threw?
    {
      Threw
    }

    function Extract(): T
      requires Returned?
    {
      value
    }
  }
}
