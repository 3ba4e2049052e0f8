/** A value that may be absent, as the broker's `Optional` results are. */
module Options {
  datatype Option<+T> = None | Some(value: T)
}
