/** The "absent value" result of the tree's queries (JavaScript `undefined`). */
module Wrappers {
  datatype Option<+T> = None | Some(value: T)
}
