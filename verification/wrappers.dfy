/** The solver's "value or False" results. Python returns either a dictionary
    or the literal `False`; here that is an Option. */
module Wrappers {

  datatype Option<+T> = None | Some(value: T)
}
