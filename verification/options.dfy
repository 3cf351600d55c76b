/** Shared carriers for optional values and for the outcome of an SDK call. */
module Options {
  datatype Option<+T> = None | Some(value: T)

  /** `Panicked` is the source's unwinding: no value and no `Error` reaches the caller. */
  datatype Outcome<+T, +E> = Ok(value: T) | Err(error: E) | Panicked
}
