/** Failure-carrying wrappers shared by every module of the model. */
module Base {

  datatype Option<T> = None | Some(value: T)

  /** The outcome of a step that either produces a value or raises an error. */
  datatype Result<T, E> = Ok(value: T) | Err(error: E)
}
