module Options {
  /** A value that may be missing: a nil pointer, a key without an entry, an error. */
  datatype Option<+T> = None | Some(value: T)
}
