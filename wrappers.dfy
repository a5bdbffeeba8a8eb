/** The Option type used for values that may be absent (a JavaScript `null`
    or `undefined`) and for outcomes that may fail (a thrown exception). */
module Wrappers {
  datatype Option<+T> = None | Some(value: T)
}
