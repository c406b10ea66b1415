/** Failure-carrying result types shared by the chain, the search and the parser. */
module Wrappers {

  /** A value that may be absent: the outcome of a registry lookup. */
  datatype Option<T> = None | Some(value: T)

  /** Either a value or the error the source would have thrown instead of returning it. */
  datatype Result<T, E> = Success(value: T) | Failure(error: E)
}
