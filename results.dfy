/** Optional values and success-or-error results shared by the catalog modules. */
module Results {

  /** An optional value: Python's `Optional[T]`, with `None` for absent. */
  datatype Option<T> = None | Some(value: T)

  /** The outcome of an operation that either produces a value or fails with an error. */
  datatype Result<T, E> = Ok(value: T) | Err(error: E)
}
