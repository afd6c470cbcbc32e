/** Option type used for the source's "undefined", "null" and thrown-error outcomes. */
module Wrappers {
  datatype Option<+T> = None | Some(value: T)
}
