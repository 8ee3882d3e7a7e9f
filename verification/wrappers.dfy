/** An optional value: a field of a parsed rule that may be absent, or the
    empty result of a conversion step. */
module Wrappers {

  datatype Option<+T> = None | Some(value: T)
}
