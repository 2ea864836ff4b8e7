/** The optional value used throughout the model in place of Kotlin's nullable types. */
module Wrappers {

  datatype Option<+T> = None | Some(value: T)
}
