/** The optional value used for PHP's null return, a missing array key and JavaScript's undefined. */
module Wrappers {

  datatype Option<+T> = None | Some(value: T)
}
