/** The optional values of the planner: a selected date that may be absent,
    an editing id that may be unset, a search that may find nothing. */
module Wrappers {

  datatype Option<+T> = None | Some(value: T)
}
