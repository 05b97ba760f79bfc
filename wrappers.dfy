/** The optional value that the log pipeline uses for "no entry" and "no worker". */
module Wrappers {

  datatype Option<+T> = None | Some(value: T)
}
