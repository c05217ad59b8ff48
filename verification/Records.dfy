/**
 The values exact state collects, the total order all of its algorithms rely on, and the results
 they report.
 */
module Records {
  import opened Bytes
  import opened Sorting

  type u64 = x: int | 0 <= x < U64
  type i64 = x: int | -U64 / 2 <= x < U64 / 2

  /** Corrupt: data that contradicts its own framing. Limit: a budget, size limit or cancellation. */
  datatype Error = Corrupt | Limit

  datatype Result<+T> = Success(value: T) | Failure(error: Error)

  datatype ValueKind = I64 | U64Kind | F64 | BytesKind

  /** Floats are compared and stored by their bit pattern. */
  datatype OwnedValue =
    | Signed(i: i64)
    | Unsigned(u: u64)
    | FloatBits(bits: u64)
    | ByteString(bytes: seq<byte>)

  datatype Record = Record(value: OwnedValue, row: u64)

  function KindOf(v: OwnedValue): ValueKind {
    match v
    case Signed(_) => I64
    case Unsigned(_) => U64Kind
    case FloatBits(_) => F64
    case ByteString(_) => BytesKind
  }

  function KindTag(k: ValueKind): byte {
    match k case I64 => 1 case U64Kind => 2 case F64 => 3 case BytesKind => 4
  }

  function KindOfTag(tag: byte): Option<ValueKind> {
    if tag == 1 then Some(I64) else if tag == 2 then Some(U64Kind)
    else if tag == 3 then Some(F64) else if tag == 4 then Some(BytesKind) else None
  }

  // ----- order --------------------------------------------------------------------------------

  predicate LexLeq(a: seq<byte>, b: seq<byte>)
    decreases |a|
  {
    a == [] || (b != [] && (a[0] < b[0] || (a[0] == b[0] && LexLeq(a[1..], b[1..]))))
  }

  /** The derived order of the value enumeration: variant first, then payload. */
  predicate ValueLeq(a: OwnedValue, b: OwnedValue) {
    if KindOf(a) != KindOf(b) then KindTag(KindOf(a)) < KindTag(KindOf(b))
    else
      match a
      case Signed(i) => i <= b.i
      case Unsigned(u) => u <= b.u
      case FloatBits(bits) => bits <= b.bits
      case ByteString(bytes) => LexLeq(bytes, b.bytes)
  }

  /** By value, then by row. */
  predicate RecordLeq(a: Record, b: Record) {
    if a.value == b.value then a.row <= b.row else ValueLeq(a.value, b.value)
  }

  /** A prefix comes first; otherwise the first byte that differs decides. */
  lemma {:induction false} LexMeans(a: seq<byte>, b: seq<byte>)
    ensures LexLeq(a, b) <==>
            a <= b || exists i :: 0 <= i < |a| && i < |b| && a[..i] == b[..i] && a[i] < b[i]
    decreases |a|
  {
    if a != [] && b != [] && a[0] == b[0] {
      var c, d := a[1..], b[1..];
      LexMeans(c, d);
      assert a == [a[0]] + c && b == [b[0]] + d;
      if i :| 0 <= i < |c| && i < |d| && c[..i] == d[..i] && c[i] < d[i] {
        assert a[..i + 1] == [a[0]] + c[..i] && b[..i + 1] == [b[0]] + d[..i];
        assert a[i + 1] < b[i + 1];
      }
      if i :| 0 <= i < |a| && i < |b| && a[..i] == b[..i] && a[i] < b[i] {
        assert i > 0 && c[..i - 1] == a[..i][1..] && d[..i - 1] == b[..i][1..] && c[i - 1] < d[i - 1];
      }
    } else if a != [] && b != [] && a[0] < b[0] {
      assert a[..0] == b[..0];
    } else {
      forall i | 0 < i < |a| && i < |b| ensures a[..i] != b[..i] {
        assert a[..i][0] != b[..i][0];
      }
    }
  }

  /** Kinds in the order they are declared; within a kind, numbers and patterns by size and bytes as above. */
  lemma ValueMeans(a: OwnedValue, b: OwnedValue)
    ensures a.Signed? ==> (ValueLeq(a, b) <==> if b.Signed? then a.i <= b.i else true)
    ensures a.Unsigned? ==> (ValueLeq(a, b) <==> if b.Unsigned? then a.u <= b.u else !b.Signed?)
    ensures a.FloatBits? ==> (ValueLeq(a, b) <==> if b.FloatBits? then a.bits <= b.bits else b.ByteString?)
    ensures a.ByteString? ==>
            (ValueLeq(a, b) <==>
             && b.ByteString?
             && (|| a.bytes <= b.bytes
                 || exists i :: 0 <= i < |a.bytes| && i < |b.bytes| && a.bytes[..i] == b.bytes[..i] &&
                                  a.bytes[i] < b.bytes[i]))
  {
    if a.ByteString? && b.ByteString? {
      LexMeans(a.bytes, b.bytes);
    }
  }

  lemma {:induction false} LexTotal(a: seq<byte>, b: seq<byte>)
    ensures LexLeq(a, b) || LexLeq(b, a)
    decreases |a|
  {
    if a != [] && b != [] {
      LexTotal(a[1..], b[1..]);
    }
  }

  lemma {:induction false} LexAntisymmetric(a: seq<byte>, b: seq<byte>)
    requires LexLeq(a, b) && LexLeq(b, a)
    ensures a == b
    decreases |a|
  {
    if a != [] {
      LexAntisymmetric(a[1..], b[1..]);
      assert a == [a[0]] + a[1..] && b == [b[0]] + b[1..];
    }
  }

  lemma {:induction false} LexTransitive(a: seq<byte>, b: seq<byte>, c: seq<byte>)
    requires LexLeq(a, b) && LexLeq(b, c)
    ensures LexLeq(a, c)
    decreases |a|
  {
    if a != [] && a[0] == b[0] && b[0] == c[0] {
      LexTransitive(a[1..], b[1..], c[1..]);
    }
  }

  lemma LexOrder()
    ensures TotalOrder(LexLeq)
  {
    forall a, b ensures LexLeq(a, b) || LexLeq(b, a) { LexTotal(a, b); }
    forall a, b | LexLeq(a, b) && LexLeq(b, a) ensures a == b { LexAntisymmetric(a, b); }
    forall a, b, c | LexLeq(a, b) && LexLeq(b, c) ensures LexLeq(a, c) { LexTransitive(a, b, c); }
  }

  lemma ValueTotal(a: OwnedValue, b: OwnedValue)
    ensures ValueLeq(a, b) || ValueLeq(b, a)
    ensures ValueLeq(a, b) && ValueLeq(b, a) ==> a == b
  {
    if a.ByteString? && b.ByteString? {
      LexTotal(a.bytes, b.bytes);
      if LexLeq(a.bytes, b.bytes) && LexLeq(b.bytes, a.bytes) {
        LexAntisymmetric(a.bytes, b.bytes);
      }
    }
  }

  lemma ValueTransitive(a: OwnedValue, b: OwnedValue, c: OwnedValue)
    requires ValueLeq(a, b) && ValueLeq(b, c)
    ensures ValueLeq(a, c)
  {
    if a.ByteString? && c.ByteString? {
      LexTransitive(a.bytes, b.bytes, c.bytes);
    }
  }

  /** Values within records are totally ordered by value, then row. */
  lemma RecordOrder()
    ensures TotalOrder(RecordLeq)
  {
    forall a, b ensures RecordLeq(a, b) || RecordLeq(b, a) { ValueTotal(a.value, b.value); }
    forall a, b | RecordLeq(a, b) && RecordLeq(b, a) ensures a == b { ValueTotal(a.value, b.value); }
    forall a, b, c | RecordLeq(a, b) && RecordLeq(b, c) ensures RecordLeq(a, c) {
      RecordTransitive(a, b, c);
    }
  }

  lemma RecordTransitive(a: Record, b: Record, c: Record)
    requires RecordLeq(a, b) && RecordLeq(b, c)
    ensures RecordLeq(a, c)
  {
    if a.value != b.value && b.value != c.value {
      ValueTransitive(a.value, b.value, c.value);
      ValueTotal(a.value, b.value);
    }
  }

  ghost predicate Ascending(s: seq<Record>) { Sorted(s, RecordLeq) }

  /** The records of a multiset by value, then row: what every merge must deliver. */
  ghost function InOrder(m: multiset<Record>): (s: seq<Record>)
    ensures multiset(s) == m && Ascending(s)
  {
    RecordOrder();
    SortedOf(m, RecordLeq)
  }

  lemma InOrderIs(s: seq<Record>)
    requires Ascending(s)
    ensures InOrder(multiset(s)) == s
  {
    RecordOrder();
    SortedIs(s, RecordLeq);
  }
}
