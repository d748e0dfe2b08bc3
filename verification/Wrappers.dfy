// The one helper type that several modules share.

module Wrappers {
  datatype Option<+T> = None | Some(value: T)
}
