/** Option, standing for the C# `null` that `Indexer.Get` returns for a missing path
    and for a regex match that does not succeed. */
module Wrappers {

  datatype Option<+T> = None | Some(value: T)
}
