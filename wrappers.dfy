/** The Option datatype used wherever the source gets back `None`. */
module Wrappers {

  datatype Option<+T> = None | Some(value: T)

}
