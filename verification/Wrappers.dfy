/** The result type shared by the models: a value or nothing. */
module Wrappers {
  datatype Option<+T> = None | Some(value: T)
}
