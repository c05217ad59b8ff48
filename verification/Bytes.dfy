/**
 Bytes, little-endian integers and length-prefixed strings: the vocabulary shared by every
 encoder, file format and hash preimage of the engine.
 */
module Bytes {
  datatype Option<+T> = None | Some(value: T)

  const U32: int := 0x1_0000_0000
  const U64: int := 0x1_0000_0000_0000_0000

  type byte = x: int | 0 <= x < 256
  type Digest = d: seq<byte> | |d| == 32 witness ZERO_DIGEST
  const ZERO_DIGEST: seq<byte> := seq(32, _ => 0)

  /** A cryptographic digest, left abstract: any total function from byte strings to 32 bytes. */
  type HashFunction = seq<byte> -> Digest

  /** `hash` maps no two of these inputs to the same digest. */
  ghost predicate CollisionFree(hash: HashFunction, inputs: set<seq<byte>>) {
    forall x, y | x in inputs && y in inputs :: hash(x) == hash(y) ==> x == y
  }

  function Pow256(n: nat): (p: nat)
    ensures p > 0
  {
    if n == 0 then 1 else 256 * Pow256(n - 1)
  }

  /** The low `n` bytes of `v`, least significant first. */
  function Le(n: nat, v: nat): (b: seq<byte>)
    ensures |b| == n
    decreases v, n
  {
    if n == 0 then [] else [v % 256] + Le(n - 1, v / 256)
  }

  function LeValue(b: seq<byte>): nat {
    if b == [] then 0 else b[0] + 256 * LeValue(b[1..])
  }

  lemma {:induction false} LeValueOfLe(n: nat, v: nat)
    requires v < Pow256(n)
    ensures LeValue(Le(n, v)) == v
  {
    if n > 0 {
      LeValueOfLe(n - 1, v / 256);
      assert Le(n, v)[1..] == Le(n - 1, v / 256);
    }
  }

  lemma {:induction false} LeOfLeValue(b: seq<byte>)
    ensures LeValue(b) < Pow256(|b|) && Le(|b|, LeValue(b)) == b
  {
    if b != [] {
      LeOfLeValue(b[1..]);
      var rest := LeValue(b[1..]);
      assert LeValue(b) % 256 == b[0] && LeValue(b) / 256 == rest;
      assert b == [b[0]] + b[1..];
    }
  }

  lemma Pow256Values()
    ensures Pow256(2) == 65536 && Pow256(4) == U32 && Pow256(8) == U64
  {
    assert Pow256(4) == 256 * (256 * (256 * (256 * Pow256(0))));
    assert Pow256(8) == 256 * (256 * (256 * (256 * Pow256(4))));
  }

  /** `u64::to_le_bytes`. */
  function Le64(v: nat): (b: seq<byte>)
    ensures |b| == 8
  {
    Le(8, v)
  }

  function Le32(v: nat): (b: seq<byte>)
    ensures |b| == 4
  {
    Le(4, v)
  }

  function Le16(v: nat): (b: seq<byte>)
    ensures |b| == 2
  {
    Le(2, v)
  }

  lemma QuotientIs(v: nat, d: nat, q: nat, r: nat)
    requires d > 0 && v == d * q + r && r < d
    ensures v / d == q
  {
    var e := v / d - q;
    assert d * e == r - v % d;
    assert e >= 1 ==> d * e >= d;
    assert e <= -1 ==> d * e <= 0 - d;
  }

  lemma DivideTwice(v: nat, b: nat)
    requires b > 0
    ensures v / 256 / b == v / (256 * b)
  {
    var x := v / 256;
    assert 256 * b * (x / b) == 256 * (b * (x / b));
    QuotientIs(v, 256 * b, x / b, 256 * (x % b) + v % 256);
  }

  /** Byte i of a little-endian integer is its i-th digit in base 256. */
  lemma {:induction false} LeByte(n: nat, v: nat, i: nat)
    requires i < n
    ensures Le(n, v)[i] == v / Pow256(i) % 256
    decreases n
  {
    if i > 0 {
      LeByte(n - 1, v / 256, i - 1);
      DivideTwice(v, Pow256(i - 1));
    }
  }

  /** A 64-bit integer byte by byte. */
  lemma Le64Bytes(v: nat)
    ensures Le64(v) == [v % 256, v / 0x100 % 256, v / 0x1_0000 % 256, v / 0x100_0000 % 256, v / 0x1_0000_0000 % 256,
                        v / 0x100_0000_0000 % 256, v / 0x1_0000_0000_0000 % 256, v / 0x100_0000_0000_0000 % 256]
  {
    SmallPowers();
    forall i: nat | i < 8 ensures Le64(v)[i] == v / Pow256(i) % 256 {
      LeByte(8, v, i);
    }
  }

  lemma SmallPowers()
    ensures Pow256(0) == 1 && Pow256(1) == 0x100 && Pow256(2) == 0x1_0000 && Pow256(3) == 0x100_0000
    ensures Pow256(4) == 0x1_0000_0000 && Pow256(5) == 0x100_0000_0000 && Pow256(6) == 0x1_0000_0000_0000
    ensures Pow256(7) == 0x100_0000_0000_0000
  {
    assert Pow256(3) == 256 * Pow256(2) && Pow256(2) == 256 * Pow256(1) && Pow256(1) == 256 * Pow256(0);
    assert Pow256(7) == 256 * Pow256(6) && Pow256(6) == 256 * Pow256(5) && Pow256(5) == 256 * Pow256(4);
  }

  /** Integers below 2^32 and 2^16, byte by byte. */
  lemma Le32Bytes(v: nat)
    ensures Le32(v) == [v % 256, v / 0x100 % 256, v / 0x1_0000 % 256, v / 0x100_0000 % 256]
    ensures Le16(v) == [v % 256, v / 0x100 % 256]
  {
    SmallPowers();
    forall i: nat | i < 4 ensures Le32(v)[i] == v / Pow256(i) % 256 {
      LeByte(4, v, i);
    }
    forall i: nat | i < 2 ensures Le16(v)[i] == v / Pow256(i) % 256 {
      LeByte(2, v, i);
    }
  }

  /** A prefix shorter than 256 bytes: its length in the first of eight bytes. */
  lemma ShortPrefix(b: seq<byte>)
    requires |b| < 256
    ensures LenPrefixed(b) == [|b|, 0, 0, 0, 0, 0, 0, 0] + b
  {
    Le64Bytes(|b|);
  }

  lemma Le64RoundTrip(v: nat)
    requires v < U64
    ensures LeValue(Le64(v)) == v
  {
    Pow256Values();
    LeValueOfLe(8, v);
  }

  lemma Le32RoundTrip(v: nat)
    requires v < U32
    ensures LeValue(Le32(v)) == v
  {
    Pow256Values();
    LeValueOfLe(4, v);
  }

  lemma Le64OfBytes(b: seq<byte>)
    requires |b| == 8
    ensures LeValue(b) < U64 && Le64(LeValue(b)) == b
  {
    Pow256Values();
    LeOfLeValue(b);
  }

  lemma Le32OfBytes(b: seq<byte>)
    requires |b| == 4
    ensures LeValue(b) < U32 && Le32(LeValue(b)) == b
  {
    Pow256Values();
    LeOfLeValue(b);
  }

  /** Two concatenations with equally long heads agree piecewise. */
  lemma SplitEqual<T>(a: seq<T>, x: seq<T>, b: seq<T>, y: seq<T>)
    requires a + x == b + y && |a| == |b|
    ensures a == b && x == y
  {
    assert a == (a + x)[..|a|] && x == (a + x)[|a|..];
    assert b == (b + y)[..|b|] && y == (b + y)[|b|..];
  }

  lemma Associative<T>(a: seq<T>, b: seq<T>, c: seq<T>)
    ensures (a + b) + c == a + (b + c)
  {
  }

  /** One more element of `b` after `a`. */
  lemma TakeOneMore<T>(a: seq<T>, b: seq<T>, i: nat)
    requires i < |b|
    ensures b[..i + 1] == b[..i] + [b[i]]
    ensures a + b[..i + 1] == (a + b[..i]) + [b[i]]
  {
    Associative(a, b[..i], [b[i]]);
  }

  lemma UpdateTail<T>(s: seq<T>, i: nat, x: T)
    requires i < |s|
    ensures s[i := x][0] == if i == 0 then x else s[0]
    ensures s[i := x][1..] == if i == 0 then s[1..] else s[1..][i - 1 := x]
  {
  }

  function LenPrefixed(b: seq<byte>): (r: seq<byte>)
    ensures |r| == 8 + |b|
  {
    Le64(|b|) + b
  }

  /** A length prefix makes a byte string self-delimiting. */
  lemma LenPrefixedUnique(a: seq<byte>, x: seq<byte>, b: seq<byte>, y: seq<byte>)
    requires |a| < U64 && |b| < U64
    requires LenPrefixed(a) + x == LenPrefixed(b) + y
    ensures a == b && x == y
  {
    assert LenPrefixed(a) + x == Le64(|a|) + (a + x);
    assert LenPrefixed(b) + y == Le64(|b|) + (b + y);
    SplitEqual(Le64(|a|), a + x, Le64(|b|), b + y);
    Le64RoundTrip(|a|);
    Le64RoundTrip(|b|);
    SplitEqual(a, x, b, y);
  }

  // ----- reading what was written -------------------------------------------------------------

  datatype Parsed<+T> = Parsed(value: T, rest: seq<byte>) | Malformed

  /** Read `n` raw bytes. */
  function ReadExact(n: nat, input: seq<byte>): (r: Parsed<seq<byte>>)
    ensures r.Parsed? ==> input == r.value + r.rest && |r.value| == n
  {
    if |input| < n then Malformed else Parsed(input[..n], input[n..])
  }

  lemma ReadExactOf(b: seq<byte>, rest: seq<byte>)
    ensures ReadExact(|b|, b + rest) == Parsed(b, rest)
  {
  }

  function ReadLe64(input: seq<byte>): (r: Parsed<nat>)
    ensures r.Parsed? ==> r.value < U64 && input == Le64(r.value) + r.rest
  {
    if |input| < 8 then Malformed
    else
      Le64OfBytes(input[..8]);
      Parsed(LeValue(input[..8]), input[8..])
  }

  lemma ReadLe64Of(v: nat, rest: seq<byte>)
    requires v < U64
    ensures ReadLe64(Le64(v) + rest) == Parsed(v, rest)
  {
    Le64RoundTrip(v);
    assert (Le64(v) + rest)[..8] == Le64(v);
  }

  function ReadLe32(input: seq<byte>): (r: Parsed<nat>)
    ensures r.Parsed? ==> r.value < U32 && input == Le32(r.value) + r.rest
  {
    if |input| < 4 then Malformed
    else
      Le32OfBytes(input[..4]);
      Parsed(LeValue(input[..4]), input[4..])
  }

  lemma ReadLe32Of(v: nat, rest: seq<byte>)
    requires v < U32
    ensures ReadLe32(Le32(v) + rest) == Parsed(v, rest)
  {
    Le32RoundTrip(v);
    assert (Le32(v) + rest)[..4] == Le32(v);
  }

  function ReadLenPrefixed(input: seq<byte>): (r: Parsed<seq<byte>>)
    ensures r.Parsed? ==> input == LenPrefixed(r.value) + r.rest && |r.value| < U64
  {
    match ReadLe64(input)
    case Malformed => Malformed
    case Parsed(n, body) => ReadExact(n, body)
  }

  lemma ReadLenPrefixedOf(b: seq<byte>, rest: seq<byte>)
    requires |b| < U64
    ensures ReadLenPrefixed(LenPrefixed(b) + rest) == Parsed(b, rest)
  {
    assert LenPrefixed(b) + rest == Le64(|b|) + (b + rest);
    ReadLe64Of(|b|, b + rest);
    ReadExactOf(b, rest);
  }
}
