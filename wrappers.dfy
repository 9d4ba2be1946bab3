/** The optional value used wherever the modelled JavaScript can yield
    `undefined`, `null` or an invalid date instead of a value. */
module Wrappers {

  datatype Option<+T> = None | Some(value: T)

}
