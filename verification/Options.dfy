/** A value that may be missing: NULL, or a search that finds nothing. */
module Options {
  datatype Option<+T> = None | Some(value: T)
}
