/** Functions that every part uses. */
module Basics {

  function Min(a: int, b: int): int {
    if a < b then a else b
  }

  /** f with the value v at k. */
  function Put<K(==), V>(f: K -> V, k: K, v: V): K -> V {
    x => if x == k then v else f(x)
  }
}
