/** A value that may be absent, as Python's `None` and JavaScript's `null` express it. */
module Options {
  datatype Option<T> = None | Some(value: T)
}
