/** Failure-compatible datatypes shared by the particle model.
    - Option<T>: `None` stands for Python's `None`; for a maxOccurs it means 'unbounded'.
    - Result<R, E>: the value of an operation, or the exception it raises.
 */
module Wrappers {

  datatype Option<+T> = None | Some(value: T)

  datatype Result<+R, +E> = Success(value: R) | Failure(error: E) {

    /** Lets `:-` stop at a raised exception. */
    predicate IsFailure() {
      Failure?
    }

    /** The same exception, carried out of an operation of another result type. */
    function PropagateFailure<U>(): Result<U, E>
      requires Failure?
    {
      Failure(error)
    }

    /** The result of an operation that did not raise. */
    function Extract(): R
      requires Success?
    {
      value
    }
  }
}
