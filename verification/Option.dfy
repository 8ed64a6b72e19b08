/** A pointer that may be null. */
module Option {
  datatype Option<+T> = None | Some(value: T)
}
