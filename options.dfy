/** Option and Result values used across the model. */
module Options {

  datatype Option<T> = None | Some(value: T)

  /** Outcome of an operation that returns a value or a classified error. */
  datatype Result<T, E> = Ok(value: T) | Err(error: E)
}
