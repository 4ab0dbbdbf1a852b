/** A value or none: a null pointer, a buffer that is not there, a run that stops. */
module Options {
  datatype Option<T> = None | Some(value: T)
}
