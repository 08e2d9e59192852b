/** The "absent" result of a lookup, in place of the null a Java lookup returns. */
module Wrappers {

  datatype Option<+T> = None | Some(value: T)

}
