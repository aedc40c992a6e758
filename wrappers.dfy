/** Option values: JavaScript's `null` versus a present object. */
module Wrappers {

  datatype Option<+T> = None | Some(value: T)

}
