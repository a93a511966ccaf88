/** The optional value used for "absent" results (a cache miss, a match that fails). */
module Wrappers {

  datatype Option<+T> = None | Some(value: T)

}
