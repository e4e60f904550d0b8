/** The optional value used wherever the program may or may not have something:
    a file that may be absent, a roster match that may not exist, an input
    stream that may run dry. */
module Wrappers {

  datatype Option<+T> = None | Some(value: T)

}
