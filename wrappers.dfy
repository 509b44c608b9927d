/** The optional value used wherever JavaScript may yield `undefined`. */
module Wrappers {

  datatype Option<+T> = None | Some(value: T)
}
