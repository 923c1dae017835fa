/** The optional value used wherever the dashboard reads `undefined`. */
module Options {
  datatype Option<+T> = None | Some(value: T)
}
