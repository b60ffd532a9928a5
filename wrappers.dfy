/** An optional value: a JavaScript value that may be `undefined` (or `NaN`). */
module Wrappers {

  datatype Option<+T> = None | Some(value: T)

}
