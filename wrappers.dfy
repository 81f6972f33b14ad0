/** The optional value used for the absent/present fields of the model
    (Python's `None` versus a value). */
module Wrappers {

  datatype Option<+T> = None | Some(value: T)
}
