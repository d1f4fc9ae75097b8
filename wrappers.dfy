/** The optional-value type used wherever the script returns `null` or a value. */
module Wrappers {

  datatype Option<+T> = None | Some(value: T)
}
