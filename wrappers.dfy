/** The optional value used where the modelled code yields `undefined` or `null`. */
module Wrappers {

  datatype Option<+T> = None | Some(value: T)
}
