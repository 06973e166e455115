/** Optional values and error results, standing in for Guava's Optional and
    for Java's null returns and exceptions. */
module Wrappers {

  /** A value that may be absent: Guava's Optional, or a Java reference that may be null. */
  datatype Option<+T> = None | Some(value: T) {

    /** Optional.or(default): the value if present, the default otherwise. */
    function GetOr(default: T): T {
      match this
      case Some(v) => v
      case None => default
    }

    /** Optional.transform(f): applies f to a present value, stays absent otherwise. */
    function Map<U>(f: T -> U): Option<U> {
      match this
      case Some(v) => Some(f(v))
      case None => None
    }
  }

  /** The outcome of an operation that can fail with an error of type E. */
  datatype Result<+T, +E> = Ok(value: T) | Err(error: E)
}
