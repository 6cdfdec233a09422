/** A value or none: a null pointer, or Ruby's `false`. */
module Options {
  datatype Option<+T> = None | Some(value: T)
}
