/** The option type used for results that may be absent, such as a parse that fails. */
module Wrappers {

  datatype Option<+T> = None | Some(value: T)
}
