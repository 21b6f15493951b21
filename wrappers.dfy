/** Optional values: a JSON body that decodes or not, text that parses to a
    number or not. */
module Wrappers {

  datatype Option<T> = None | Some(value: T)
}
