/** How a call of the modelled program can end. */
module Results {
  datatype Option<+T> = None | Some(value: T)

  /** Panic stands for a run-time panic, such as an index out of range. */
  datatype Outcome<+T, +E> = Ok(value: T) | Err(error: E) | Panic
}
