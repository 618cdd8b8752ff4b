/** The optional-value datatype the line parsers return: a line is either
    recognised (Some) or skipped (None). */
module Wrappers {

  datatype Option<+T> = None | Some(value: T)
}
