/** The optional value used where the bot returns `None` on a missing row or a failed parse. */
module Wrappers {

  datatype Option<+T> = None | Some(value: T)

}
