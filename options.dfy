/** A value that may be missing: the NULL pointer of the C code. */
module Options {
  datatype Option<T> = None | Some(value: T)
}
