// A value that may be absent: a Go nil pointer, SQL NULL or zero time.
module Options {
  datatype Option<+T> = None | Some(value: T)
}
