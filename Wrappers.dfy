/** Optional values: the model's rendering of C# nullable types (`int?`, `string?`, `DateTime?`). */
module Wrappers {

  datatype Option<+T> = None | Some(value: T)
}
