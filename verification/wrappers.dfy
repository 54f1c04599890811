/** The optional value the response framer returns: a response, or nothing on end of stream. */
module Wrappers {

  datatype Option<+T> = None | Some(value: T)
}
