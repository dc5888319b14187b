/** A value that may be absent: the model of a C# nullable reference. */
module Wrappers {

  datatype Option<T> = None | Some(value: T)
}
