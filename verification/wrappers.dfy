/** The optional value used for an absent sender username, a missing
    substring position and a reply that is not sent. */
module Wrappers {

  datatype Option<+T> = None | Some(value: T)

}
