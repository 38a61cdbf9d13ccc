/** A value that may be absent: a null pointer, an unbounded end of a range. */
module Options {
  datatype Option<T> = None | Some(value: T)
}
