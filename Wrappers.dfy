/** An optional value, for header fields that may be absent and parses that may fail. */
module Wrappers {

  datatype Option<+T> = None | Some(value: T)
}
