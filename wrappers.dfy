/** Stand-in for Java's nullable references: `None` is `null`. */
module Wrappers {

  datatype Option<T> = None | Some(value: T)
}
