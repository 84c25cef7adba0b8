/** A value that may be missing: a failed check, a slow path or an unmapped address. */
module Options {
  datatype Option<+T> = None | Some(value: T)
}
