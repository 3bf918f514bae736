/** The absent-or-present value used for partial decoders and for
    out-parameters that the source leaves unwritten on some paths. */
module Wrappers {

  datatype Option<+T> = None | Some(value: T)
}
