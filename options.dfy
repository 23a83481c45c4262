/** The optional value returned by a channel receive. */
module Options {
  datatype Option<+T> = None | Some(value: T)
}
