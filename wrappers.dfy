/** The optional value the repository returns where the source returns `None`. */
module Wrappers {

  datatype Option<+T> = None | Some(value: T)
}
