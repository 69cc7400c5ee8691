/** The JavaScript `null` of the source, as an explicit alternative. */
module Wrappers {

  datatype Option<+T> = None | Some(value: T)
}
