/** The optional value the parsing functions of the properties return. */
module Options {
  datatype Option<T> = None | Some(value: T)
}
