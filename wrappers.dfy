/** The optional value used throughout the model in place of Java's `null`
    and of the exceptions the server does not catch. */
module Wrappers {

  datatype Option<+T> = None | Some(value: T)

}
