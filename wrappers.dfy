/** The failure-carrying value used wherever the Python code raises (a callable that throws,
    a token `int()` rejects, an argument of the wrong type). */
module Wrappers {

  datatype Option<+T> = None | Some(value: T)
}
