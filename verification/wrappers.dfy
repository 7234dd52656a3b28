/** An optional value, used where the tree returns "no node" (a null reference). */
module Wrappers {

  datatype Option<+T> = None | Some(value: T)
}
