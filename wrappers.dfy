/** The optional value used where the source returns `null` or leaves a parameter `undefined`. */
module Wrappers {

  datatype Option<+T> = None | Some(value: T)
}
