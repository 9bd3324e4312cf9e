/** The optional value used wherever the JavaScript source reads a property
    that may be `undefined`. */
module Wrappers {

  datatype Option<+T> = None | Some(value: T)
}
