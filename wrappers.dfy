/** The optional value used where the modelled code has "maybe" results. */
module Wrappers {

  datatype Option<+T> = None | Some(value: T)
}
