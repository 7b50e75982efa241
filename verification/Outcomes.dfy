/** Results and optional values, standing in for Go's error returns and nil pointers. */
module Outcomes {

  datatype Option<+T> = None | Some(value: T)

  datatype Result<+T, +E> = Ok(value: T) | Err(error: E)
  {
    predicate IsFailure() {
      Err?
    }

    function PropagateFailure<U>(): Result<U, E>
      requires Err?
    {
      Err(error)
    }

    function Extract(): T
      requires Ok?
    {
      value
    }
  }

  /** A row set as a driver delivers it: some rows, then either the end or a failure. */
  datatype Delivery<T> = Delivery(rows: seq<T>, broken: bool)
}
