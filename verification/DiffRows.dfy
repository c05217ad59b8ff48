/**
 How a diff keys and hashes the rows of a dataset: equal keys mean equal key cells, and equal hashes
 mean equal rows wherever the hash function has no collision.
 */
module DiffRows {
  import opened Bytes
  import opened Records
  import Canonical
  import opened DiffCodec

  type Value = Canonical.Value
  type Row = Canonical.Row

  const ROW_DOMAIN: seq<byte> :=
    [112, 114, 111, 111, 102, 102, 114, 97, 109, 101, 58, 100, 105, 102, 102, 45, 114, 111, 119, 58, 118, 50,
     0]  // "proofframe:diff-row:v2\0"

  ghost predicate Encodable(v: Value) { Canonical.Supported(v) && |Canonical.Encode(v)| < U64 }

  ghost predicate AllEncodable(vs: seq<Value>) { forall v | v in vs :: Encodable(v) }

  /** Cells as Arrow holds them: of their type's width, and of bounded size where they can be encoded. */
  ghost predicate Sized(v: Value) { Canonical.Typed(v) && (Canonical.Supported(v) ==> |Canonical.Encode(v)| < U64) }

  ghost predicate AllSized(vs: seq<Value>) { forall v | v in vs :: Sized(v) }

  // ----- keys ----------------------------------------------------------------------------------------

  /** Every key cell behind its column index and its length. */
  ghost function KeyBytes(cells: seq<Value>, columns: seq<nat>): seq<byte>
    requires |cells| == |columns| && AllEncodable(cells)
  {
    if cells == [] then []
    else
      assert cells[0] in cells;
      Le64(columns[0]) + (LenPrefixed(Canonical.Encode(cells[0])) + KeyBytes(cells[1..], columns[1..]))
  }

  /** Two rows share a diff key exactly when their key cells are equal. */
  lemma {:induction false} KeyBytesInjective(a: seq<Value>, b: seq<Value>, columns: seq<nat>)
    requires |a| == |b| == |columns| && AllEncodable(a) && AllEncodable(b)
    ensures KeyBytes(a, columns) == KeyBytes(b, columns) <==> a == b
    decreases |a|
  {
    if a != [] && KeyBytes(a, columns) == KeyBytes(b, columns) {
      assert a[0] in a && b[0] in b;
      var x, y := KeyBytes(a[1..], columns[1..]), KeyBytes(b[1..], columns[1..]);
      SplitEqual(Le64(columns[0]), LenPrefixed(Canonical.Encode(a[0])) + x, Le64(columns[0]),
                 LenPrefixed(Canonical.Encode(b[0])) + y);
      LenPrefixedUnique(Canonical.Encode(a[0]), x, Canonical.Encode(b[0]), y);
      Canonical.EncodeInjective(a[0], b[0]);
      KeyBytesInjective(a[1..], b[1..], columns[1..]);
      assert a == [a[0]] + a[1..] && b == [b[0]] + b[1..];
    }
  }

  lemma {:induction false} KeySnoc(cells: seq<Value>, columns: seq<nat>, v: Value, column: nat)
    requires |cells| == |columns| && AllEncodable(cells) && Encodable(v)
    ensures AllEncodable(cells + [v])
    ensures KeyBytes(cells + [v], columns + [column]) == KeyBytes(cells, columns) +
            (Le64(column) + LenPrefixed(Canonical.Encode(v)))
    decreases |cells|
  {
    if cells == [] {
      assert [v][1..] == [] && [column][1..] == [];
    } else {
      assert cells[0] in cells;
      assert (cells + [v])[1..] == cells[1..] + [v] && (columns + [column])[1..] == columns[1..] + [column];
      KeySnoc(cells[1..], columns[1..], v, column);
      var more := Le64(column) + LenPrefixed(Canonical.Encode(v));
      Associative(LenPrefixed(Canonical.Encode(cells[0])), KeyBytes(cells[1..], columns[1..]), more);
      Associative(Le64(columns[0]), LenPrefixed(Canonical.Encode(cells[0])) + KeyBytes(cells[1..], columns[1..]), more);
    }
  }

  // ----- hashes --------------------------------------------------------------------------------------

  /** A row's cells as the diff keeps them: nothing for a null, the canonical bytes otherwise. */
  ghost function Kept(v: Value): Option<seq<byte>>
    requires Encodable(v)
  {
    if v.Null? then None else Some(Canonical.Encode(v))
  }

  ghost function KeptRow(row: Row): (r: seq<Option<seq<byte>>>)
    requires AllEncodable(row)
    ensures |r| == |row|
  {
    seq(|row|, i requires 0 <= i < |row| => assert row[i] in row; Kept(row[i]))
  }

  function PartBytes(v: Option<seq<byte>>): (r: seq<byte>)
    ensures |r| > 0
  {
    match v case None => [0] case Some(bytes) => [1] + LenPrefixed(bytes)
  }

  function PartsBytes(vs: seq<Option<seq<byte>>>): seq<byte> {
    if vs == [] then [] else PartBytes(vs[0]) + PartsBytes(vs[1..])
  }

  function RowPreimage(vs: seq<Option<seq<byte>>>): seq<byte> { ROW_DOMAIN + PartsBytes(vs) }

  /** Key cells and row cells byte by byte: each cell behind its column, or behind a presence byte, and its length. */
  lemma CellLayout(v: Value, column: nat, cells: seq<Value>, columns: seq<nat>)
    requires Encodable(v) && AllEncodable(cells) && |cells| == |columns|
    ensures AllEncodable([v] + cells)
    ensures KeyBytes([v] + cells, [column] + columns) ==
            Le64(column) + ((Le64(|Canonical.Encode(v)|) + Canonical.Encode(v)) + KeyBytes(cells, columns))
    ensures PartBytes(Kept(v)) == if v.Null? then [0] else [1] + (Le64(|Canonical.Encode(v)|) + Canonical.Encode(v))
  {
    assert ([v] + cells)[1..] == cells && ([column] + columns)[1..] == columns;
  }

  /** Two cells are kept alike exactly when they are equal, so a changed column is one whose cells differ. */
  lemma KeptMeans(v: Value, w: Value)
    requires Encodable(v) && Encodable(w)
    ensures Kept(v) == Kept(w) <==> v == w
  {
    if !v.Null? && !w.Null? {
      Canonical.EncodeInjective(v, w);
    }
  }

  lemma RowLayout(part: Option<seq<byte>>, parts: seq<Option<seq<byte>>>)
    ensures RowPreimage(parts) ==
            [112, 114, 111, 111, 102, 102, 114, 97, 109, 101, 58, 100, 105, 102, 102, 45, 114, 111, 119, 58, 118, 50,
             0] +
              PartsBytes(parts)
    ensures PartsBytes([]) == [] && PartsBytes([part] + parts) == PartBytes(part) + PartsBytes(parts)
  {
    assert ([part] + parts)[1..] == parts;
  }

  predicate Short(v: Option<seq<byte>>) { v.Some? ==> |v.value| < U64 }

  lemma PartUnique(v: Option<seq<byte>>, x: seq<byte>, w: Option<seq<byte>>, y: seq<byte>)
    requires Short(v) && Short(w) && PartBytes(v) + x == PartBytes(w) + y
    ensures v == w && x == y
  {
    var a, b := PartBytes(v), PartBytes(w);
    assert (a + x)[0] == a[0] && (b + y)[0] == b[0];
    assert (a + x)[1..] == a[1..] + x && (b + y)[1..] == b[1..] + y;
    if v.Some? {
      assert a[1..] == LenPrefixed(v.value) && b[1..] == LenPrefixed(w.value);
      LenPrefixedUnique(v.value, x, w.value, y);
    } else {
      assert [] + x == x && [] + y == y;
    }
  }

  lemma {:induction false} PartsUnique(a: seq<Option<seq<byte>>>, b: seq<Option<seq<byte>>>)
    requires (forall v | v in a :: Short(v)) && (forall v | v in b :: Short(v))
    ensures PartsBytes(a) == PartsBytes(b) <==> a == b
    decreases |a|
  {
    if PartsBytes(a) == PartsBytes(b) {
      if a == [] || b == [] {
        assert |PartsBytes(a)| == 0 && |PartsBytes(b)| == 0;
      } else {
        assert a[0] in a && b[0] in b;
        PartUnique(a[0], PartsBytes(a[1..]), b[0], PartsBytes(b[1..]));
        PartsUnique(a[1..], b[1..]);
        assert a == [a[0]] + a[1..] && b == [b[0]] + b[1..];
      }
    }
  }

  lemma KeptDetermines(a: Row, b: Row)
    requires AllEncodable(a) && AllEncodable(b) && |a| == |b|
    ensures KeptRow(a) == KeptRow(b) <==> a == b
  {
    if KeptRow(a) == KeptRow(b) {
      forall i | 0 <= i < |a| ensures a[i] == b[i] {
        assert a[i] in a && b[i] in b;
        assert KeptRow(a)[i] == KeptRow(b)[i];
        if !a[i].Null? && !b[i].Null? {
          Canonical.EncodeInjective(a[i], b[i]);
        }
      }
    }
  }

  /** Rows of one width have equal hashes exactly when they are equal, where their preimages do not collide. */
  lemma RowHashDetermines(a: Row, b: Row, hash: HashFunction)
    requires AllEncodable(a) && AllEncodable(b) && |a| == |b|
    requires CollisionFree(hash, {RowPreimage(KeptRow(a)), RowPreimage(KeptRow(b))})
    ensures hash(RowPreimage(KeptRow(a))) == hash(RowPreimage(KeptRow(b))) <==> a == b
  {
    var x, y := KeptRow(a), KeptRow(b);
    if hash(RowPreimage(x)) == hash(RowPreimage(y)) {
      SplitEqual(ROW_DOMAIN, PartsBytes(x), ROW_DOMAIN, PartsBytes(y));
      KeptShort(a);
      KeptShort(b);
      PartsUnique(x, y);
      KeptDetermines(a, b);
    }
  }

  lemma KeptShort(row: Row)
    requires AllEncodable(row)
    ensures forall v | v in KeptRow(row) :: Short(v)
  {
    forall v | v in KeptRow(row) ensures Short(v) {
      var i :| 0 <= i < |row| && KeptRow(row)[i] == v;
      assert row[i] in row;
    }
  }

  // ----- encoding a dataset ----------------------------------------------------------------------------

  /** The text shown for a row's key; how values are rendered is left abstract. */
  type Display = (Row, seq<nat>) -> seq<byte>

  ghost function Keyed(row: Row, columns: seq<nat>, display: Display, hash: HashFunction): DiffRecord
    requires Canonical.InRange(columns, |row|) && AllEncodable(row)
  {
    PickEncodable(row, columns);
    DiffRecord(KeyBytes(Canonical.Pick(row, columns), columns),
               RowEntry(display(row, columns), KeptRow(row), hash(RowPreimage(KeptRow(row)))))
  }

  lemma PickEncodable(row: Row, columns: seq<nat>)
    requires Canonical.InRange(columns, |row|) && AllEncodable(row)
    ensures AllEncodable(Canonical.Pick(row, columns))
  {
  }

  /** `diff_key`; a key cell of an unsupported type is an error. */
  method DiffKey(row: Row, columns: seq<nat>) returns (r: Result<seq<byte>>)
    requires Canonical.InRange(columns, |row|) && AllSized(row)
    ensures r.Success? <==> AllEncodable(Canonical.Pick(row, columns))
    ensures r.Success? ==> r.value == KeyBytes(Canonical.Pick(row, columns), columns)
  {
    ghost var cells := Canonical.Pick(row, columns);
    var key: seq<byte> := [];
    for i := 0 to |columns|
      invariant AllEncodable(cells[..i]) && key == KeyBytes(cells[..i], columns[..i])
    {
      var value := row[columns[i]];
      assert value == cells[i] && cells[i] in cells && value in row;
      var encoded := Canonical.CanonicalValueBytes(value);
      if encoded.Unsupported? {
        return Failure(Corrupt);
      }
      KeySnoc(cells[..i], columns[..i], value, columns[i]);
      assert cells[..i + 1] == cells[..i] + [cells[i]] && columns[..i + 1] == columns[..i] + [columns[i]];
      Associative(key, Le64(columns[i]), LenPrefixed(encoded.value));
      key := key + Le64(columns[i]) + LenPrefixed(encoded.value);
    }
    assert cells[..|columns|] == cells && columns[..|columns|] == columns;
    r := Success(key);
  }

  /** `row_hash`. */
  method RowHash(values: seq<Option<seq<byte>>>, hash: HashFunction) returns (digest: Digest)
    ensures digest == hash(RowPreimage(values))
  {
    var hasher := ROW_DOMAIN;
    for i := 0 to |values|
      invariant hasher == ROW_DOMAIN + PartsBytes(values[..i])
    {
      assert values[..i + 1] == values[..i] + [values[i]];
      PartsSnoc(values[..i], values[i]);
      Associative(ROW_DOMAIN, PartsBytes(values[..i]), PartBytes(values[i]));
      hasher := hasher + PartBytes(values[i]);
    }
    assert values[..|values|] == values;
    digest := hash(hasher);
  }

  lemma {:induction false} PartsSnoc(vs: seq<Option<seq<byte>>>, v: Option<seq<byte>>)
    ensures PartsBytes(vs + [v]) == PartsBytes(vs) + PartBytes(v)
  {
    if vs == [] {
      assert [v][1..] == [];
    } else {
      assert (vs + [v])[1..] == vs[1..] + [v];
      PartsSnoc(vs[1..], v);
      Associative(PartBytes(vs[0]), PartsBytes(vs[1..]), PartBytes(v));
    }
  }

  /** One row of `collect_rows_in_memory` or `partition_rows`: an error exactly when some cell cannot be encoded. */
  method EncodeRow(row: Row, columns: seq<nat>, display: Display, hash: HashFunction) returns (r: Result<DiffRecord>)
    requires Canonical.InRange(columns, |row|) && AllSized(row)
    ensures r.Success? <==> AllEncodable(row)
    ensures r.Success? ==> r.value == Keyed(row, columns, display, hash)
  {
    var key := DiffKey(row, columns);
    if key.Failure? {
      UnsupportedCell(row, columns);
      return Failure(key.error);
    }
    var values: seq<Option<seq<byte>>> := [];
    for i := 0 to |row|
      invariant AllEncodable(row[..i]) && values == KeptRow(row[..i])
    {
      assert row[i] in row;
      var encoded := Canonical.CanonicalValueBytes(row[i]);
      if encoded.Unsupported? {
        return Failure(Corrupt);
      }
      assert row[..i + 1] == row[..i] + [row[i]];
      values := values + [if row[i].Null? then None else Some(encoded.value)];
    }
    assert row[..|row|] == row;
    var digest := RowHash(values, hash);
    r := Success(DiffRecord(key.value, RowEntry(display(row, columns), values, digest)));
  }

  lemma UnsupportedCell(row: Row, columns: seq<nat>)
    requires Canonical.InRange(columns, |row|) && !AllEncodable(Canonical.Pick(row, columns))
    ensures !AllEncodable(row)
  {
    if AllEncodable(row) {
      PickEncodable(row, columns);
    }
  }

  /**
   What the diff compares is what the datasets hold: two rows meet under one key exactly when their key
   cells are equal, and count as changed exactly when the rows then differ.
   */
  lemma KeyedMeans(a: Row, b: Row, columns: seq<nat>, display: Display, hash: HashFunction)
    requires |a| == |b| && Canonical.InRange(columns, |a|) && AllEncodable(a) && AllEncodable(b)
    requires CollisionFree(hash, {RowPreimage(KeptRow(a)), RowPreimage(KeptRow(b))})
    ensures Keyed(a, columns, display, hash).key == Keyed(b, columns, display, hash).key <==>
            Canonical.Pick(a, columns) == Canonical.Pick(b, columns)
    ensures Keyed(a, columns, display, hash).entry.hash != Keyed(b, columns, display, hash).entry.hash <==> a != b
  {
    PickEncodable(a, columns);
    PickEncodable(b, columns);
    KeyBytesInjective(Canonical.Pick(a, columns), Canonical.Pick(b, columns), columns);
    RowHashDetermines(a, b, hash);
  }
}
