/** The optional value used wherever the source uses `null` for "nothing". */
module Wrappers {

  datatype Option<+T> = None | Some(value: T)
}
