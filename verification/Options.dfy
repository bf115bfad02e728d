/** A value that may be missing: a null handle, an empty result. */
module Options {
  datatype Option<+T> = None | Some(value: T)
}
