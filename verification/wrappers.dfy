/** Optional values, used wherever the Java code may produce "no value" (a failed parse, a missing header). */
module Wrappers {

  datatype Option<+T> = None | Some(value: T)
}
