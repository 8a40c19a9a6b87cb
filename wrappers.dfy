/** Small value wrappers shared by the catalog and the file-commit model. */
module Wrappers {

  /** A value that may be absent; `None` also stands for Go's nil error. */
  datatype Option<+T> = None | Some(value: T)
}
