/** Failure-compatible result types used for the C++ exceptions of the model. */
module Wrappers {

  datatype Option<+T> = None | Some(value: T)

  /** `Ok` carries the value of a call that returned; `Err` the exception it threw. */
  datatype Result<+T, +E> = Ok(value: T) | Err(error: E) {
    predicate IsFailure() {
      Err?
    }

    function PropagateFailure<U>(): Result<U, E>
      requires Err?
    {
      Err(error)
    }

    function Extract(): T
      requires Ok?
    {
      value
    }
  }
}
