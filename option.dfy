/** The optional value used for lookups and for operations that can fail. */
module Options {
  datatype Option<T> = None | Some(value: T)
}
