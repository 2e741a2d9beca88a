/** An optional value: a DOM lookup or a storage read that may come back null. */
module Wrappers {
  datatype Option<+T> = None | Some(value: T)
}
