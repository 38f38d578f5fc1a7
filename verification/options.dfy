/** The optional value returned by the parsing and lookup functions. */
module Options {
  datatype Option<+T> = None | Some(value: T)
}
