/** Optional values. `None` stands for JavaScript's `undefined`/`null` results
    and for the "done" signal of an iterator step. */
module Wrappers {

  datatype Option<+T> = None | Some(value: T)
}
