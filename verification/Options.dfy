/** A value that may be missing: src/Option.h, and the places where a pointer may be null. */
module Options {
  datatype Option<+T> = None | Some(value: T)
}
