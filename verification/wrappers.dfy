/** The optional value used wherever the source tests `typeof x !== 'undefined'`
    or a regular expression may fail to match. */
module Wrappers {
  datatype Option<T> = None | Some(value: T)
}
