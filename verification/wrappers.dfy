/** The optional values the resolvers pass around: an argument the client may
    omit, or a lookup that may find nothing (JavaScript's `undefined`). */
module Wrappers {

  datatype Option<+T> = None | Some(value: T)

}
