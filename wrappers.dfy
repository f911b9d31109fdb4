/** The "value or nothing" type used where JavaScript returns `null` or `undefined`. */
module Wrappers {
  datatype Option<+T> = None | Some(value: T)
}
