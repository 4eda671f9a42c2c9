/** The closed set of error kinds the string and path code throws, and the
    Result/Option wrappers used in place of exceptions and of `npos`. */
module Base {

  /** The three exception classes of BaseExceptions.hpp that the core throws. */
  datatype Error = ValueError | IndexOutOfBoundsError | ConversionDataError

  /** The value of an operation that either returns normally or throws. */
  datatype Result<T> = Success(value: T) | Failure(error: Error)

  /** An index that may be `npos`: `None` stands for the `npos` sentinel. */
  datatype Option<T> = None | Some(value: T)

  function Min(a: int, b: int): int
  {
    if a <= b then a else b
  }

  function Max(a: int, b: int): int
  {
    if a <= b then b else a
  }
}
