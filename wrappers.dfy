/** Optional values: `None` stands for JavaScript's `undefined` (an absent field, a search that found nothing). */
module Wrappers {

  datatype Option<+T> = None | Some(value: T)

}
