/** Optional values, used wherever the modelled code signals "absent" or "failed". */
module Wrappers {

  datatype Option<+T> = None | Some(value: T)

}
