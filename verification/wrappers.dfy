/** Optional values and success-or-error results, standing in for Ruby's `nil`
    and for an `ArgumentError` raised out of `register`. */
module Wrappers {

  /** A value that may be absent (`nil` in the plugin's instance variables). */
  datatype Option<+T> = None | Some(value: T)

  /** Either a value or the error that the plugin would raise instead. */
  datatype Result<+R, +E> = Success(value: R) | Failure(error: E) {

    predicate IsFailure() {
      Failure?
    }

    function PropagateFailure<U>(): Result<U, E>
      requires Failure?
    {
      Failure(error)
    }

    function Extract(): R
      requires Success?
    {
      value
    }
  }
}
