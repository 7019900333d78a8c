/** Return values shared by the tree operations: an optional value (Python's `None`
    or a found item) and the exceptions the tree raises. */
module Outcomes {

  datatype Option<T> = None | Some(value: T)

  /** `KeyError` is raised by `remove`; `ValueError` by `list.index` inside `range_find`. */
  datatype Error = KeyError | ValueError

  datatype Result<T> = Success(value: T) | Failure(error: Error)
}
