/** Values that may be absent: the null pointers of the source. */
module Options {
  datatype Option<+T> = None | Some(value: T)
}
