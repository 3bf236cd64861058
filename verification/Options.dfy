/** A value or nothing: a null pointer, or the outcome of a call that may fail. */
module Options {
  datatype Option<T> = None | Some(value: T)
}
