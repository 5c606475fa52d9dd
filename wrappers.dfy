/** Python's optional values (`None` or a value), as returned by `dict.get`. */
module Wrappers {

  datatype Option<+T> = None | Some(value: T)

}
