/** The absent value that the JavaScript code signals with `undefined` or `null`. */
module Wrappers {

  datatype Option<+T> = None | Some(value: T)
}
