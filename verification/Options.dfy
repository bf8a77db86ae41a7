/** A value that may be missing: a C pointer that may be NULL, or the result of a call that may fail. */
module Options {
  datatype Option<+T> = None | Some(value: T)
}
