/** A value that may be absent: a NULL pointer, a failed call. */
module Options {
  datatype Option<T> = None | Some(value: T)
}
