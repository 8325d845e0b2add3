/**
 A value that may be absent, where the original returns nil or an extra boolean.
 */
module Options {
  datatype Option<+T> = None | Some(value: T)
}
