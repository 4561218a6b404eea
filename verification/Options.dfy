/** A value, or nothing where the source has a null pointer or an error return. */
module Options {
  datatype Option<+T> = None | Some(value: T)
}
