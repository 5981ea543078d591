/** The absent-or-present value used wherever the rules read a node field
    that may be `undefined` or a string operation that may find nothing. */
module Wrappers {

  datatype Option<+T> = None | Some(value: T)
}
