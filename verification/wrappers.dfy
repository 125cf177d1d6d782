/** The optional value used throughout the model: a pending timer that may be
    absent, or a JavaScript array read that may yield `undefined`. */
module Wrappers {

  datatype Option<+T> = None | Some(value: T)
}
