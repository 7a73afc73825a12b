/** Optional values: the model's stand-in for JavaScript's `undefined` and SQL's NULL. */
module Base {

  datatype Option<+T> = None | Some(value: T)

  /**
   * SQL's `column = $1`: a NULL on either side makes the comparison unknown,
   * and a WHERE clause keeps only rows for which it is true.
   */
  predicate SqlEquals<T(==)>(column: Option<T>, parameter: Option<T>)
  {
    column.Some? && parameter.Some? && column.value == parameter.value
  }
}
