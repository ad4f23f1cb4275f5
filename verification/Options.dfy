/** The usual optional value, for the null pointers of the source. */
module Options {
  datatype Option<+T> = None | Some(value: T)
}
