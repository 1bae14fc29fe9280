/** A value that may be missing: a NULL pointer, a failed read. */
module Options {
  datatype Option<+T> = None | Some(value: T)
}
