/** The absent-or-present result used where the JavaScript code returns a
    value or `undefined`. */
module Wrappers {

  datatype Option<+T> = None | Some(value: T)
}
