/** Failure results shared by the linked list and both piece tables.
    The Go code returns `error` values built from messages; the model keeps
    only the kind of each failure. */
module Outcomes {

  /** The kinds of failure the piece tables and the list report. */
  datatype Error =
    | OutOfRange        // a position or index past the end
    | InvalidArgument   // an empty insert, an empty delete
    | Inconsistent      // a resolver came back with nothing for a resolvable position

  /** A value or the error that replaced it. */
  datatype Result<+T> = Ok(value: T) | Err(error: Error) {
    predicate IsFailure() { Err? }

    function PropagateFailure<U>(): Result<U>
      requires Err?
    {
      Err(error)
    }

    function Extract(): T
      requires Ok?
    {
      value
    }
  }

  /** Success or failure of an operation that returns no value. */
  datatype Outcome = Pass | Fail(error: Error)
}
