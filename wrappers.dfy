/** An optional value, standing for a Python value that may be absent
    (a missing dictionary key, a call that raised). */
module Wrappers {

  datatype Option<+T> = None | Some(value: T)
}
