/** Failure-carrying result types shared by the model.

    `Option` stands for a Python call that either returns a value or raises;
    `Outcome` adds the third possibility of a loop in the source that never
    exits, so that the model stays a total function. */
module Outcomes {

  datatype Option<+T> = None | Some(value: T) {

    predicate IsFailure() {
      None?
    }

    function PropagateFailure<U>(): Option<U>
      requires None?
    {
      None
    }

    function Extract(): T
      requires Some?
    {
      value
    }
  }

  /** The exceptions the truncation code can raise on its own account. */
  datatype Failure =
    | NegativeSampleSize   // random.sample with a negative k (negative token budget)
    | ZeroTokenField       // ZeroDivisionError when a field or record counts zero tokens

  /** What a computation of the source does: it finishes with a value, raises,
      or spins in a loop forever. */
  datatype Outcome<+T> = Done(value: T) | Raised(failure: Failure) | Diverges
}
