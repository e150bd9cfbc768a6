/** An optional value, used where a reducer may have nothing to report. */
module Wrappers {

  datatype Option<+T> = None | Some(value: T)
}
