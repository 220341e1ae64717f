/** Optional values, shared by the editor state and the route handler. */
module Wrappers {
  datatype Option<T> = None | Some(value: T)
}
