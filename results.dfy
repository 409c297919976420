/** Failure-carrying values: Python's `None` and raised exceptions become data here. */
module Results {

  datatype Option<T> = None | Some(value: T)

  datatype Result<T, E> = Ok(value: T) | Err(error: E)
}
