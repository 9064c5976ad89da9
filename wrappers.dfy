/** Option values stand for SQL NULL: a column or parameter that may be absent. */
module Wrappers {

  datatype Option<+T> = None | Some(value: T)
}
