/** Optional values, and Python's truthiness test on an optional number. */
module Options {

  /** `None` or a present value, as Python's `Optional[...]`. */
  datatype Option<T> = None | Some(value: T)

  /** `if o:` on an `Optional[float]`: `None` and `0.0` are false, every other number is true. */
  predicate Truthy(o: Option<real>)
  {
    o.Some? && o.value != 0.0
  }
}
