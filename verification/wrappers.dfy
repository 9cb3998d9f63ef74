/** The optional value used wherever the DOM answers with an element or `null`. */
module Wrappers {

  datatype Option<+T> = None | Some(value: T)

}
