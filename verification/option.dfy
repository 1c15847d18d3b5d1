/// A value that may be missing: a null pointer, a parent that does not exist.

module Options {
  datatype Option<T> = None | Some(value: T)
}
