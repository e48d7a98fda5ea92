/** The optional value used across the model for Go's `value, ok` pairs and error returns. */
module Wrappers {
  datatype Option<+T> = None | Some(value: T)
}
