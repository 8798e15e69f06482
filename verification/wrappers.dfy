/** Optional values, standing in for the nullable references of the editor's object model. */
module Wrappers {

  datatype Option<+T> = None | Some(value: T)
}
