/** Failure-carrying values used throughout the model: `Option` for the
    source's `Option<T>` and `Result` for its `io::Result<T>`. */
module Results {

  datatype Option<+T> = None | Some(value: T)

  datatype Result<+T, +E> = Ok(value: T) | Err(error: E)
}
