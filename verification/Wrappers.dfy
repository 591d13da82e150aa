/** The one shared value wrapper: a present or an absent value. */
module Wrappers {
  datatype Option<+T> = None | Some(value: T)
}
