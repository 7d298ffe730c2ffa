/** The conventional optional value: a Go nil, a missing map entry, or the value itself. */
module Options {
  datatype Option<+T> = None | Some(value: T)
}
