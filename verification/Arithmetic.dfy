/**
 Minimum, maximum, and facts about products of integers that several modules share.
 */
module Arithmetic {
  function Smaller(a: nat, b: nat): nat { if a < b then a else b }

  function Larger(a: nat, b: nat): nat { if a < b then b else a }

  /** A nonzero multiple of d is at least d away from zero. */
  lemma Multiple(k: int, d: int)
    requires d > 0
    ensures (k >= 1 ==> k * d >= d) && (k <= -1 ==> k * d <= -d)
  {
    if k >= 1 {
      assert (k - 1) * d >= 0;
    } else if k <= -1 {
      assert (-k - 1) * d >= 0;
    }
  }

  lemma Regroup(a: int, b: int, c: int)
    ensures a * (b * c) == a * b * c && a * b * c == a * c * b
  {
  }
}
