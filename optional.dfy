/** Swift's `Optional<T>`: a grid cell, or the result of an optional-chained read. */
module Optional {

  datatype Option<+T> = None | Some(value: T)
}
