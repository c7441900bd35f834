/** The optional value used for attributes and tags that may be missing. */
module Wrappers {
  datatype Option<+T> = None | Some(value: T)
}
