/** The optional value used wherever the JavaScript code returns `undefined`, `false` or `-1`
    for "nothing found". */
module Wrappers {
  datatype Option<+T> = None | Some(value: T)
}
