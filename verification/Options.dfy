/** The optional values used across the model: Go's nil pointers and `value, ok` pairs. */
module Options {
  datatype Option<+T> = None | Some(value: T)
}
