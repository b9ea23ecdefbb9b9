/** Optional values: a JavaScript `undefined`, an empty array slot or an absent panel is `None`. */
module Wrappers {
  datatype Option<+T> = None | Some(value: T)
}
