/** Option type used for the outcomes of operations that may throw in the source. */
module Wrappers {

  datatype Option<+T> = None | Some(value: T)

}
