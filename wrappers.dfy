/** The optional value that the launcher's TypeScript expresses with `null`,
    `undefined` and optional properties (`?:`). */
module Wrappers {

  datatype Option<+T> = None | Some(value: T)
}
