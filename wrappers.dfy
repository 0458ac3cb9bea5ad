/** An optional value: `None` stands for JavaScript's `null`/`undefined` (a falsy argument). */
module Wrappers {

  datatype Option<+T> = None | Some(value: T)
}
