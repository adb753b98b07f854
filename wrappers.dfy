/** Python's `None` and Python's failed `assert`, as values. */
module Wrappers {

  /** A value that may be absent: `None` stands for Python's `None`. */
  datatype Option<+T> = None | Some(value: T)

  /** The outcome of an operation that may raise: `Failure` carries the raised error. */
  datatype Result<+T, +E> = Success(value: T) | Failure(error: E)
}
