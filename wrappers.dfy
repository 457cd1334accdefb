/** The optional value used throughout the model: a JavaScript `undefined`
    body field, a row that the store does not hold, an id that does not parse. */
module Wrappers {

  datatype Option<+T> = None | Some(value: T)
}
