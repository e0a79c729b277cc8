/** Failure-compatible wrappers shared by every module of the model. */
module Wrappers {

  /** An optional value: the model's stand-in for a C# `null` or a `Nullable<T>`. */
  datatype Option<+T> = None | Some(value: T)

  /** Either a value or the reason the simulator would have stopped. */
  datatype Result<+T, +E> = Ok(value: T) | Err(error: E) {
    predicate IsFailure() {
      Err?
    }

    function PropagateFailure<U>(): Result<U, E>
      requires Err?
    {
      Err(error)
    }

    function Extract(): T
      requires Ok?
    {
      value
    }
  }
}
