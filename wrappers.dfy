/** A value that may be absent: a missing DOM element, an unparseable date,
    no matching section. */
module Wrappers {

  datatype Option<+T> = None | Some(value: T)
}
