/** A value that may be absent: a JavaScript `undefined` field or a request without a file. */
module Wrappers {

  datatype Option<+T> = None | Some(value: T)
}
