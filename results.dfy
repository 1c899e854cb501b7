/** Failure-carrying values, for the Rust `Option` and `Result` values the core passes around. */
module Results {
  datatype Option<+T> = None | Some(value: T)
  datatype Result<+T, +E> = Ok(value: T) | Err(error: E)
}
