/** A value that may be missing: a NULL key, no error, no record. */
module Options {
  datatype Option<+T> = None | Some(v: T)
}
