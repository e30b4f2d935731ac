/** Failure-compatible results shared by every model in the project. */
module Outcome {

  datatype Option<+T> = None | Some(value: T) {
    predicate IsFailure() {
      None?
    }

    function PropagateFailure<U>(): Option<U>
      requires None?
    {
      None
    }

    function Extract(): T
      requires Some?
    {
      value
    }
  }

  datatype Result<+T, +E> = Ok(value: T) | Err(error: E) {
    predicate IsFailure() {
      Err?
    }

    function PropagateFailure<U>(): Result<U, E>
      requires Err?
    {
      Err(error)
    }

    function Extract(): T
      requires Ok?
    {
      value
    }
  }

  /** The `ok_or` adaptor: a missing value becomes the given error. */
  function OkOr<T, E>(o: Option<T>, e: E): Result<T, E> {
    if o.Some? then Ok(o.value) else Err(e)
  }
}
