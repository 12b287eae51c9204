/** Optional values and error results, for C#'s null and for the exceptions the windows let escape. */
module Results {

  /** A value that may be absent: the model of a C# reference that may be null. */
  datatype Option<T> = None | Some(value: T)

  /** The outcome of an operation that either returns a value or throws. */
  datatype Result<T, E> = Ok(value: T) | Err(error: E)
}
