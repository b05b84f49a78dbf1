/** The optional value used for results that may be absent (a parse that fails, say). */
module Wrappers {

  datatype Option<+T> = None | Some(value: T)
}
