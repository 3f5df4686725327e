/** The optional value used for ids that may be absent and for store lookups. */
module Wrappers {

  datatype Option<+T> = None | Some(value: T)

}
