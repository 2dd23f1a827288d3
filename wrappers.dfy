/** The optional value used wherever the source returns `None` or skips an item. */
module Wrappers {

  datatype Option<+T> = None | Some(value: T)
}
