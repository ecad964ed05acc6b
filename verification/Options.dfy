/** The absent-or-present result used wherever the source returns -1 or NULL. */
module Options {
  datatype Option<+T> = None | Some(value: T)
}
