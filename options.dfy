/** A value that may be absent: a missing storage key, a missing element, a scan that chose nothing. */
module Options {
  datatype Option<+T> = None | Some(value: T)
}
