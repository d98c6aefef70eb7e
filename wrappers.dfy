/** The option type shared by the converter modules. */
module Wrappers {
  datatype Option<+T> = None | Some(value: T)
}
