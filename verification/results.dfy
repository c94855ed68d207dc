/** Failure-carrying wrappers shared by the loader and the raycaster. */
module Results {

  /** A value that may be absent: a NULL address, a missing resource. */
  datatype Option<+T> = None | Some(value: T)

  /** A value or the reason it could not be produced. */
  datatype Result<+T, +E> = Ok(value: T) | Err(error: E)
}
