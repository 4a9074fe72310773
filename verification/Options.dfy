/** The result of a computation that may not produce one. */
module Options {
  datatype Option<+T> = None | Some(value: T)
}
