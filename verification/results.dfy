/** Failure-carrying values shared by the model: `Option` for an absent value
    and `Result` for an operation that either succeeds or reports an error. */
module Results {

  datatype Option<T> = None | Some(value: T)

  datatype Result<T, E> = Ok(value: T) | Err(error: E)
}
