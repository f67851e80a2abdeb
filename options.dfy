/** The optional value used throughout the model for "maybe absent". */
module Options {
  datatype Option<+T> = None | Some(value: T)
}
