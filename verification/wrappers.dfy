/** The optional value used wherever the source reads a field that may be
    absent (`undefined`/`null` in the original). */
module Wrappers {

  datatype Option<+T> = None | Some(value: T)
}
