/** Optional values: the "invalid"/"absent" results of the tree and tile queries. */
module Wrappers {

  datatype Option<+T> = None | Some(value: T)

}
