/** Option and Result, the failure-compatible wrappers used throughout the model. */
module Wrappers {

  datatype Option<T> = None | Some(value: T)

  /** `Err` stands for a Python exception that the modelled code lets propagate. */
  datatype Result<T, E> = Ok(value: T) | Err(error: E) {

    predicate IsFailure() {
      Err?
    }

    function PropagateFailure<U>(): Result<U, E>
      requires Err?
    {
      Err(error)
    }

    function Extract(): T
      requires Ok?
    {
      value
    }
  }
}
