/** A value that may be missing: a null pointer or a failed allocation. */
module Options {
  datatype Option<+T> = None | Some(value: T)
}
