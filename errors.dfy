/** The exceptions the table engine can raise, and the result type that
    carries either a value or one of them. */
module Errors {

  /** `ColumnNotFound` is the ValueError of `list.index` when a column name is
      missing from a header; `IndexError` is an out-of-range subscript or
      deletion; `EmptyArgument` is the ValueError of `max()` on an empty list. */
  datatype Error = ColumnNotFound(name: string) | IndexError | EmptyArgument

  datatype Option<+T> = None | Some(value: T)

  datatype Result<+T> = Ok(value: T) | Err(error: Error) {
    predicate IsFailure() { Err? }

    function PropagateFailure<U>(): Result<U>
      requires Err?
    {
      Err(error)
    }

    function Extract(): T
      requires Ok?
    {
      value
    }
  }
}
