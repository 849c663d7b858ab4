/** The conventional optional-value datatype: `None` plays the part of a Java `null` or a Python `None`. */
module Wrappers {
  datatype Option<+T> = None | Some(value: T)
}
