/** The optional value used wherever the source has `undefined`, `NaN` or "not found". */
module Wrappers {

  datatype Option<+T> = None | Some(value: T)

}
