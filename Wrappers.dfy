/** The optional value used for a .NET reference that may be null, and for a call that may throw. */
module Wrappers {
  datatype Option<+T> = None | Some(value: T)
}
