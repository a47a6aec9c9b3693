/** The optional value used for the results that can be missing: a rejected form,
    a failed fetch, a string that is not a clock time. */
module Wrappers {
  datatype Option<+T> = None | Some(value: T)
}
