module Wrappers {
  datatype Option<T> = None | Some(value: T)

  type Byte = bv8
}
