/** Outcomes of operations that the program ends with an exception. */
module Results {
  datatype Option<+T> = None | Some(value: T)

  /** Err stands for an IllegalArgumentException or a RuntimeException thrown to the caller. */
  datatype Result<+T> = Ok(value: T) | Err
}
