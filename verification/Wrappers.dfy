module Wrappers {

  /** A nullable value: a NULL column, an absent parameter, a record that was not found. */
  datatype Option<+T> = None | Some(value: T)
}
