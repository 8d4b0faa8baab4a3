/** Optional values: TypeScript's `T | undefined` / `T | null` and Python's `Optional[T]`. */
module Wrappers {

  datatype Option<+T> = None | Some(value: T)
}
