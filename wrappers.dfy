/** Optional values, standing in for the C# nulls and empty lists the program tests for. */
module Wrappers {

  datatype Option<+T> = None | Some(value: T)
}
