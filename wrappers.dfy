/** Optional values. In the schema editor model `None` also stands for
    JavaScript's `undefined` where the source can store or read it. */
module Wrappers {

  datatype Option<+T> = None | Some(value: T)
}
