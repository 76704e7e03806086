/** The failures the adapter can raise. Only one kind exists: the
    `IndexOutOfBoundsException` that `java.util.List` throws for a position
    outside its bounds. */
module Outcome {

  datatype Error = IndexOutOfBounds(index: int, size: int)

  /** Either the value an operation returns or the exception it throws. */
  datatype Result<+T> = Ok(value: T) | Failure(error: Error) {

    predicate IsFailure() {
      Failure?
    }

    function PropagateFailure<U>(): Result<U>
      requires Failure?
    {
      Failure(error)
    }

    function Extract(): T
      requires Ok?
    {
      value
    }
  }

  datatype Option<+T> = None | Some(value: T)
}
