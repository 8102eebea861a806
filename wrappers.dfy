/** The optional-value datatype used for attributes and configuration keys that may be absent. */
module Wrappers {

  datatype Option<+T> = None | Some(value: T)
}
