/** The optional value used wherever the C and C++ sources use a null pointer,
    a default-constructed result or an "unchanged" output parameter. */
module Wrappers {

  datatype Option<+T> = None | Some(value: T)
}
