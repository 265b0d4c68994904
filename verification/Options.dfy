/** A value or nothing, where the source returns NULL. */
module Options {
  datatype Option<+T> = None | Some(value: T)
}
