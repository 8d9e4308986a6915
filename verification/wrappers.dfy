/** The "maybe an entry" type used where the source compares an iterator with `end()`. */
module Wrappers {
  datatype Option<+T> = None | Some(value: T)
}
