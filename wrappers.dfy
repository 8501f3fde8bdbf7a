/** The optional value used for "no selection yet" and "no occurrence found". */
module Wrappers {

  datatype Option<+T> = None | Some(value: T)
}
