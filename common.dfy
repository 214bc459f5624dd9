/** Small shared vocabulary: an optional value, and Python's truthiness of an optional id. */
module Common {

  /** `None` stands for Python's `None` and for a query that returned no row. */
  datatype Option<+T> = None | Some(value: T)

  /** `if category_id:` in Python: false for `None` and for `0`. */
  predicate Truthy(f: Option<int>) {
    f.Some? && f.value != 0
  }
}
