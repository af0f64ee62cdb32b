/** A value that may be missing: a null pointer, an error code, a trap. */
module Options {
  datatype Option<+T> = None | Some(value: T)
}
