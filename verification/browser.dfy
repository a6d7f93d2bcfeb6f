/**
 What the page scripts share: the range of the browser's random source,
 and an optional value for results that may be missing.
 */
module Browser {

  /** A value `Math.random` can return. */
  predicate Unit(r: real) {
    0.0 <= r < 1.0
  }

  datatype Option<T> = None | Some(value: T)
}
