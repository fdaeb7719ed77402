/** A small optional-value type, used for "first match" positions and response bodies. */
module Wrappers {

  datatype Option<+T> = None | Some(value: T)
}
