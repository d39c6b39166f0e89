/** A value that may be missing: a NULL pointer, or an answer that was not found. */
module Options {
  datatype Option<+T> = None | Some(value: T)
}
