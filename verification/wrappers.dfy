/** Option type used where the JavaScript code yields a value or nothing. */
module Wrappers {

  datatype Option<+T> = None | Some(value: T)
}
