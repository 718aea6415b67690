/** The Some/None datatype used wherever the service has a value
    that may be missing (an absent request field, a NULL column). */
module Wrappers {

  datatype Option<+T> = None | Some(value: T)
}
