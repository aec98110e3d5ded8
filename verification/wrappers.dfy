/** Optional values, standing in for Python's `None` results (a missing guild,
    absent message text, a query that finds no row). */
module Wrappers {

  datatype Option<+T> = None | Some(value: T)
}
