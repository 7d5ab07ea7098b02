/** The `Result<T, E>` and `Option<T>` of the Rust core. */
module Results {
  datatype Result<T, E> = Ok(value: T) | Err(error: E)

  datatype Option<T> = None | Some(value: T)
}
