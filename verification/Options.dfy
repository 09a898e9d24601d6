// A value that may be missing: NULL, or "not found".

module Options {
  datatype Option<T> = None | Some(value: T)
}
