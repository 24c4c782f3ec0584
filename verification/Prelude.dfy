/**
  What several modules need and no part of the repository is about.
 */
module Prelude {

  datatype Option<+T> = None | Some(value: T)

  function Min(a: int, b: int): int { if a < b then a else b }

  lemma ConcatAssociates<X>(a: seq<X>, b: seq<X>, c: seq<X>)
    ensures a + (b + c) == (a + b) + c
  {
  }
}
