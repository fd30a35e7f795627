/** The optional value used for the dataset's missing cells (NaN in a column). */
module Wrappers {
  datatype Option<+T> = None | Some(value: T)
}
