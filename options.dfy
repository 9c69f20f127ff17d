/** The optional value used for absent headers, absent request fields and failed inserts. */
module Options {
  datatype Option<+T> = None | Some(value: T)
}
