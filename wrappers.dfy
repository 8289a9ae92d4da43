/** The optional value used across the model (Kotlin's nullable types). */
module Wrappers {
  datatype Option<+T> = None | Some(value: T)
}
