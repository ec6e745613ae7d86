/** Optional values and error results. */
module Results {

  datatype Option<T> = None | Some(value: T)

  /** The outcome of a call that may raise: its value, or the name of the exception. */
  datatype Result<T> = Ok(value: T) | Raised(exception: string)
}
