/** The optional value used wherever the scripts return `null`/`undefined` or a regex
    `match` comes back empty. */
module Wrappers {
  datatype Option<+T> = None | Some(value: T)
}
