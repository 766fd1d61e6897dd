/** The optional value that stands for Python's `None`: a query's `.first()` that
    found no row, a nullable column, or an absent argument. */
module Wrappers {

  datatype Option<+T> = None | Some(value: T)
}
