/** Option and Result values used in place of Python's None and exceptions. */
module Wrappers {

  /** A nullable value: `None` stands for Python's `None`. */
  datatype Option<+T> = None | Some(value: T)

  /** Either a computed value or the error the Python code would raise. */
  datatype Result<+T, +E> = Success(value: T) | Failure(error: E) {

    predicate IsFailure() {
      Failure?
    }

    function PropagateFailure<U>(): Result<U, E>
      requires Failure?
    {
      Failure(error)
    }

    function Extract(): T
      requires Success?
    {
      value
    }
  }
}
