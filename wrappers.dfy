/** The optional value used where the source has `None` or a present value. */
module Wrappers {

  datatype Option<+T> = None | Some(value: T)

}
