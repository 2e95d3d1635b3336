/** The optional value used for the per-worker formatter cell and for parsers
    that may reject their input. */
module Wrappers {

  datatype Option<+T> = None | Some(value: T)
}
