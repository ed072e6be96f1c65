/** Failure-compatible results, in the shape the repository's Rust code uses them. */
module Wrappers {
  datatype Option<+T> = None | Some(value: T)

  datatype Result<+T, +E> = Success(value: T) | Failure(error: E) {
    predicate IsFailure() {
      Failure?
    }

    function PropagateFailure<U>(): Result<U, E>
      requires Failure?
    {
      Failure(error)
    }

    function Extract(): T
      requires Success?
    {
      value
    }
  }

  /** `Option::ok_or` */
  function OkOr<T, E>(o: Option<T>, error: E): Result<T, E> {
    match o
    case None => Failure(error)
    case Some(v) => Success(v)
  }
}
