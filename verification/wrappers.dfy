/** The optional value used where the Java code returns `null` or the index `-1`. */
module Wrappers {

  datatype Option<+T> = None | Some(value: T)
}
