/** Outcome types shared by the maze and time modules: a value or the failure the source raises. */
module Results {

  datatype Option<T> = None | Some(value: T)

  datatype Result<T, E> = Ok(value: T) | Err(error: E)
}
