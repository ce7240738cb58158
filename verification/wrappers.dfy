/** The optional value used wherever the JavaScript code yields `undefined`,
    `null` or `NaN` instead of a value. */
module Wrappers {

  datatype Option<+T> = None | Some(value: T)
}
