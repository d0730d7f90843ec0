/** The optional value used for Python's `None` and for JavaScript's `NaN` result of `parseInt`. */
module Optional {

  datatype Option<+T> = None | Some(value: T)
}
