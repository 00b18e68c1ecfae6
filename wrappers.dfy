/** The optional value used for lookups that can miss and for a search that can give up. */
module Wrappers {

  datatype Option<+T> = None | Some(value: T)
}
