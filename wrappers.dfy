/** The optional value that models a JavaScript `string | null` result. */
module Wrappers {

  datatype Option<+T> = None | Some(value: T)

}
