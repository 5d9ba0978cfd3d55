/** Small shared datatypes: an optional value, used wherever the source
    works with a value that may be absent (a failed remote call, a nil
    pointer, a write that never fails). */
module Wrappers {

  datatype Option<+T> = None | Some(value: T)
}
