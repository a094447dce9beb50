/** The optional value used for Go's `(value, ok)` pairs and fallible conversions. */
module Wrappers {
  datatype Option<+T> = None | Some(value: T)
}
