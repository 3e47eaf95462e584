/** A value that may be missing: what the sources signal with NULL or NOTOK. */
module Options {
  datatype Option<+T> = None | Some(value: T)
}
