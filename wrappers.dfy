/** The optional value used wherever the JavaScript code uses `undefined`. */
module Wrappers {

  datatype Option<+T> = None | Some(value: T)
}
