/** The optional value used for results that may be missing: a `parseInt` that
    reads no digit, a hex string that does not decode, a process that closed
    without an exit code. */
module Wrappers {

  datatype Option<+T> = None | Some(value: T)
}
