module Options {
  // A value, or what the program leaves unset or fails to produce.
  datatype Option<+T> = None | Some(value: T)
}
