/**
 Values compared by their own order: what monotonicity and gap rules carry from row to row.
 */
module Ordering {
  import opened Bytes
  import opened Records

  datatype Comparison = Less | Equal | Greater

  /** Integers, unsigned integers, doubles by bit pattern, and text by its bytes. */
  datatype Ordered = IntValue(i: int) | UintValue(u: u64) | FloatValue(bits: u64) | TextValue(bytes: seq<byte>)

  predicate SameKind(a: Ordered, b: Ordered) {
    || (a.IntValue? && b.IntValue?) || (a.UintValue? && b.UintValue?)
    || (a.FloatValue? && b.FloatValue?) || (a.TextValue? && b.TextValue?)
  }

  function CompareInts(a: int, b: int): Comparison { if a < b then Less else if a > b then Greater else Equal }

  /** The signed integer whose order is `f64::total_cmp`: negative patterns run backwards below the positive ones. */
  function TotalKey(bits: u64): int { if bits < U64 / 2 then bits else U64 / 2 - 1 - bits }

  function CompareBytes(a: seq<byte>, b: seq<byte>): Comparison { if a == b then Equal else if LexLeq(a, b) then Less
      else Greater }

  /** `Ordered::compare`; different kinds do not compare. */
  function Compare(a: Ordered, b: Ordered): Option<Comparison> {
    match (a, b)
    case (IntValue(x), IntValue(y)) => Some(CompareInts(x, y))
    case (UintValue(x), UintValue(y)) => Some(CompareInts(x, y))
    case (FloatValue(x), FloatValue(y)) => Some(CompareInts(TotalKey(x), TotalKey(y)))
    case (TextValue(x), TextValue(y)) => Some(CompareBytes(x, y))
    case _ => None
  }

  datatype Direction = Increasing | StrictlyIncreasing | Decreasing | StrictlyDecreasing

  /** `follows`: None when the kinds differ. */
  function Follows(direction: Direction, previous: Ordered, next: Ordered): Option<bool> {
    match Compare(previous, next)
    case None => None
    case Some(c) =>
      Some(match direction
           case Increasing => c != Greater
           case StrictlyIncreasing => c == Less
           case Decreasing => c != Less
           case StrictlyDecreasing => c == Greater)
  }

  function Flip(c: Comparison): Comparison { match c case Less => Greater case Equal => Equal case Greater => Less }

  /** The comparison is a total order on each kind, and equal only on identical values (floats by pattern). */
  lemma CompareIsTotalOrder(a: Ordered, b: Ordered, c: Ordered)
    ensures Compare(a, b).Some? <==> SameKind(a, b)
    ensures Compare(a, b) == Some(Equal) <==> a == b
    ensures SameKind(a, b) ==> Compare(b, a) == Some(Flip(Compare(a, b).value))
    ensures Compare(a, b) == Some(Less) && Compare(b, c) == Some(Less) ==> Compare(a, c) == Some(Less)
  {
    if a.TextValue? && b.TextValue? {
      LexTotal(a.bytes, b.bytes);
      if LexLeq(a.bytes, b.bytes) && LexLeq(b.bytes, a.bytes) {
        LexAntisymmetric(a.bytes, b.bytes);
      }
      if c.TextValue? && LexLeq(a.bytes, b.bytes) && LexLeq(b.bytes, c.bytes) {
        LexTransitive(a.bytes, b.bytes, c.bytes);
        if a.bytes == c.bytes {
          LexAntisymmetric(a.bytes, b.bytes);
        }
      }
    }
  }

  lemma SameKindMeans(a: Ordered, b: Ordered)
    ensures SameKind(a, b) <==>
            match a
            case IntValue(_) => b.IntValue?
            case UintValue(_) => b.UintValue?
            case FloatValue(_) => b.FloatValue?
            case TextValue(_) => b.TextValue?
  {
  }

  // What each direction asks of two values, kind by kind.

  lemma IntegersFollow(x: int, y: int)
    ensures Follows(Increasing, IntValue(x), IntValue(y)) == Some(x <= y)
    ensures Follows(StrictlyIncreasing, IntValue(x), IntValue(y)) == Some(x < y)
    ensures Follows(Decreasing, IntValue(x), IntValue(y)) == Some(x >= y)
    ensures Follows(StrictlyDecreasing, IntValue(x), IntValue(y)) == Some(x > y)
  {
  }

  lemma UnsignedFollow(x: u64, y: u64)
    ensures Follows(Increasing, UintValue(x), UintValue(y)) == Some(x <= y)
    ensures Follows(StrictlyIncreasing, UintValue(x), UintValue(y)) == Some(x < y)
    ensures Follows(Decreasing, UintValue(x), UintValue(y)) == Some(x >= y)
    ensures Follows(StrictlyDecreasing, UintValue(x), UintValue(y)) == Some(x > y)
  {
  }

  /** A double's top bit is its sign: negative ones come first, the larger magnitude before the smaller. */
  lemma FloatsFollow(x: u64, y: u64)
    ensures var sign: int := 0x8000_0000_0000_0000;
            var below := if x >= sign then y < sign || x > y else y < sign && x < y;
            && Follows(Increasing, FloatValue(x), FloatValue(y)) == Some(below || x == y)
            && Follows(StrictlyIncreasing, FloatValue(x), FloatValue(y)) == Some(below)
            && Follows(Decreasing, FloatValue(x), FloatValue(y)) == Some(!below)
            && Follows(StrictlyDecreasing, FloatValue(x), FloatValue(y)) == Some(!below && x != y)
  {
  }

  /** Text by its bytes: a prefix comes first, otherwise the first byte that differs decides. */
  lemma TextsFollow(x: seq<byte>, y: seq<byte>)
    ensures var below := x < y || exists i :: 0 <= i < |x| && i < |y| && x[..i] == y[..i] && x[i] < y[i];
            && Follows(Increasing, TextValue(x), TextValue(y)) == Some(below || x == y)
            && Follows(StrictlyIncreasing, TextValue(x), TextValue(y)) == Some(below)
            && Follows(Decreasing, TextValue(x), TextValue(y)) == Some(!below)
            && Follows(StrictlyDecreasing, TextValue(x), TextValue(y)) == Some(!below && x != y)
  {
    LexMeans(x, y);
  }

  /**
   Checking neighbours is enough: when every value follows its predecessor, every value follows all
   earlier ones, so no violation means the whole column is ordered.
   */
  lemma {:induction false} NeighboursOrderAll(direction: Direction, values: seq<Ordered>, i: nat, j: nat)
    requires forall k | 0 < k < |values| :: Follows(direction, values[k - 1], values[k]) == Some(true)
    requires i < j < |values|
    ensures Follows(direction, values[i], values[j]) == Some(true)
    decreases j
  {
    assert Follows(direction, values[j - 1], values[j]) == Some(true);
    if i < j - 1 {
      NeighboursOrderAll(direction, values, i, j - 1);
      FollowsTransitive(direction, values[i], values[j - 1], values[j]);
    }
  }

  lemma FollowsTransitive(direction: Direction, a: Ordered, b: Ordered, c: Ordered)
    requires Follows(direction, a, b) == Some(true) && Follows(direction, b, c) == Some(true)
    ensures Follows(direction, a, c) == Some(true)
  {
    CompareIsTotalOrder(a, b, c);
    CompareIsTotalOrder(b, a, a);
    CompareIsTotalOrder(b, c, a);
    CompareIsTotalOrder(c, b, a);
    CompareIsTotalOrder(a, c, b);
  }
}
