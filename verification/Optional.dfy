/** A value or none. */
module Optional {
  datatype Option<T> = None | Some(value: T)
}
