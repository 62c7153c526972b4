/** The optional-value type used by the scanners of the formatter. */
module Wrappers {

  datatype Option<+T> = None | Some(value: T)
}
