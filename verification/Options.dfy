/** A value that may be missing, where the C code has a null pointer. */
module Options {
  datatype Option<+T> = None | Some(value: T)
}
