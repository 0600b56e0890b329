/** An optional value, and the associativity of concatenation, which the solver does not apply on its own. */
module Basics {

  datatype Option<+T> = None | Some(value: T)

  lemma Reassociate<T>(x: seq<T>, y: seq<T>, z: seq<T>)
    ensures (x + y) + z == x + (y + z)
  {
  }
}
