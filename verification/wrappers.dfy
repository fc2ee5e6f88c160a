/** The optional-value datatype used wherever the script reads something that
    may be absent (an unset `data-category`, a division with no sentences). */
module Wrappers {

  datatype Option<+T> = None | Some(value: T)
}
