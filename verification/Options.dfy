/** An optional value: a null pointer, a missing answer, or the result of a call that may crash. */
module Options {
  datatype Option<T> = None | Some(value: T)
}
