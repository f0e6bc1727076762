/** The Option datatype used for values the page script may not find. */
module Wrappers {

  datatype Option<+T> = None | Some(value: T)
}
