/** The optional value used for C pointers that may be NULL. */
module Options {
  datatype Option<+T> = None | Some(value: T)
}
