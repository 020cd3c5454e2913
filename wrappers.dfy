/** Optional values and results with an error, shared by every module of the model. */
module Wrappers {

  /** A value that may be missing: pandas' NaN / a left join without a match. */
  datatype Option<+T> = None | Some(value: T)

  /** The outcome of an operation that raises on bad input. */
  datatype Result<+T, +E> = Ok(value: T) | Err(error: E) {
    predicate IsFailure() { Err? }

    function PropagateFailure<U>(): Result<U, E>
      requires Err?
    {
      Err(error)
    }

    function Extract(): T
      requires Ok?
    {
      value
    }
  }
}
