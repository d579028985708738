/** Optional values: the model's stand-in for the game's nullable cell pointers. */
module Wrappers {

  datatype Option<+T> = None | Some(value: T)
}
