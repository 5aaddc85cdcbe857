/** An optional value: the model's stand-in for JavaScript's `undefined`
    (a dismissed picker) and for a display string that does not parse. */
module Wrappers {

  datatype Option<+T> = None | Some(value: T)
}
