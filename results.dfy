/** Option and Result, used for searches that may fail and for the reader's error returns. */
module Results {

  datatype Option<T> = None | Some(value: T)

  datatype Result<T, E> = Ok(value: T) | Err(error: E)
}
