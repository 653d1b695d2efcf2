/** Failure-carrying result types used where the C# program returns null or throws. */
module Outcomes {

  /** A value that may be absent; stands for a C# reference that may be null. */
  datatype Option<T> = None | Some(value: T)

  /** Either a value or the error that a .NET call would have thrown instead. */
  datatype Result<T, E> = Success(value: T) | Failure(error: E)
}
