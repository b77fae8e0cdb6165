/** The optional value used for pandas' missing cells and for `str | None` results. */
module Wrappers {

  datatype Option<+T> = None | Some(value: T)
}
