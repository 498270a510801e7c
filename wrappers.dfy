/** An optional value, used where the C code signals "nothing" through a
    NULL pointer or a failed call. */
module Wrappers {

  datatype Option<+T> = None | Some(value: T)
}
