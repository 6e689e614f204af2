/** An optional value: how a configuration option that may be absent is read. */
module Wrappers {

  datatype Option<+T> = None | Some(value: T)
}
