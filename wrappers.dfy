/** The optional value the controllers return where the source returns null. */
module Wrappers {

  datatype Option<+T> = None | Some(value: T)
}
