/** Absent-or-present values: TypeScript's `T | null | undefined`. */
module Wrappers {
  datatype Option<+T> = None | Some(value: T)
}
