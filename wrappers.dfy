/** Failure-carrying return values: the model's stand-in for C++ exceptions and null pointers. */
module Wrappers {

  datatype Option<+T> = None | Some(value: T)

  datatype Result<+T, +E> = Success(value: T) | Failure(error: E) {
    predicate IsFailure() { Failure? }

    function PropagateFailure<U>(): Result<U, E>
      requires Failure?
    {
      Failure(error)
    }

    function Extract(): T
      requires Success?
    {
      value
    }
  }

  /** std::out_of_range, which std::unordered_map::at throws on a missing key. */
  datatype Error = OutOfRange
}
