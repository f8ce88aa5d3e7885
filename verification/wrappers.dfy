/** The optional value the registry's lookups return: JavaScript's
    `undefined` from `Array.prototype.find` and from a missing object key
    becomes `None`. */
module Wrappers {

  datatype Option<+T> = None | Some(value: T)

}
