/**
 The V2 dataset fingerprint: one hash per column, absorbed batch by batch, under a root that also
 binds the schema digest and the row count.
 */
module FingerprintV2 {
  import opened Bytes
  import opened Canonical
  import opened ValueEncoder
  import opened FingerprintV1
  import opened SchemaPreimage

  const FP_V2: seq<byte> := [112, 102, 45, 102, 112, 45, 118, 50, 0]  // "pf-fp-v2\0"
  const COLUMN_V2: seq<byte> := [112, 102, 45, 102, 112, 45, 118, 50, 45, 99, 111, 108, 117, 109, 110,
                                 0]  // "pf-fp-v2-column\0"

  /** `update_v2` for one cell: a presence byte, then the value without its type tag. */
  ghost function CellV2(e: Encoder, v: Value): (r: seq<byte>)
    requires Fits(e, v)
    ensures |r| > 0
  {
    FitsIsSupported(e, v);
    if v.Null? then [0]
    else
      [1] +
      match e
      case ScalarEncoder(_) => v.raw
      case BooleanEncoder => [Bit(v.b)]
      case TextEncoder(_) => LenPrefixed(v.bytes)
      case _ => LenPrefixed(Encode(v))
  }

  ghost predicate AllFit(e: Encoder, column: seq<Value>) {
    forall v | v in column :: Fits(e, v)
  }

  ghost function ColumnV2(e: Encoder, column: seq<Value>): seq<byte>
    requires AllFit(e, column)
  {
    if column == [] then [] else CellV2(e, column[0]) + ColumnV2(e, column[1..])
  }

  lemma {:induction false} ColumnSnoc(e: Encoder, column: seq<Value>, v: Value)
    requires AllFit(e, column) && Fits(e, v)
    ensures ColumnV2(e, column + [v]) == ColumnV2(e, column) + CellV2(e, v)
  {
    if column == [] {
      assert [] + [v] == [v] && [v][1..] == [];
    } else {
      ColumnSnoc(e, column[1..], v);
      assert (column + [v])[1..] == column[1..] + [v];
      Associative(CellV2(e, column[0]), ColumnV2(e, column[1..]), CellV2(e, v));
    }
  }

  function Column(rows: seq<Row>, c: nat): seq<Value>
    requires forall r | r in rows :: c < |r|
  {
    seq(|rows|, i requires 0 <= i < |rows| => rows[i][c])
  }

  const MAX_ROWS: nat := U64 - 1

  function Saturated(n: nat): nat { if n <= MAX_ROWS then n else MAX_ROWS }

  ghost predicate Conforming(rows: seq<Row>, encoders: seq<Encoder>) {
    forall r | r in rows :: |r| == |encoders| && forall c | 0 <= c < |encoders| :: Fits(encoders[c], r[c])
  }

  lemma ConformingColumn(rows: seq<Row>, encoders: seq<Encoder>, c: nat)
    requires Conforming(rows, encoders) && c < |encoders|
    ensures (forall r | r in rows :: c < |r|) && AllFit(encoders[c], Column(rows, c))
  {
  }

  lemma TypedRowsConform(rows: seq<Row>, fields: seq<Field>, encoders: seq<Encoder>)
    requires ForFields(fields) == Success(encoders)
    requires forall r | r in rows :: RowHasSchema(r, fields)
    ensures Conforming(rows, encoders)
  {
    forall r, c: nat | r in rows && c < |encoders| ensures Fits(encoders[c], r[c]) {
      assert ForDataType(fields[c].dataType) == Success(encoders[c]);
      TypedCellFits(r[c], fields[c].dataType);
    }
  }

  /** Everything one column's hasher absorbs for the given rows. */
  ghost function ColumnStream(c: nat, encoders: seq<Encoder>, rows: seq<Row>): seq<byte>
    requires Conforming(rows, encoders) && c < |encoders|
  {
    ConformingColumn(rows, encoders, c);
    COLUMN_V2 + Le64(c) + ColumnV2(encoders[c], Column(rows, c))
  }

  ghost function Streams(encoders: seq<Encoder>, rows: seq<Row>): (s: seq<seq<byte>>)
    requires Conforming(rows, encoders)
    ensures |s| == |encoders| && forall c | 0 <= c < |s| :: s[c] == ColumnStream(c, encoders, rows)
  {
    seq(|encoders|, c requires 0 <= c < |encoders| && Conforming(rows, encoders) => ColumnStream(c, encoders, rows))
  }

  ghost function Digests(streams: seq<seq<byte>>, hash: HashFunction): (d: seq<byte>)
    ensures |d| == 40 * |streams|
  {
    if streams == [] then []
    else
      var c := |streams| - 1;
      Digests(streams[..c], hash) + (Le64(c) + hash(streams[c]))
  }

  ghost function RootPreimage(schemaDigest: Digest, rows: nat, streams: seq<seq<byte>>, hash: HashFunction): seq<byte> {
    FP_V2 + (schemaDigest + (Le64(rows) + (Le64(|streams|) + Digests(streams, hash))))
  }

  /** The root preimage as a function of schema, selected keys and the sequence of rows. */
  ghost function RootOf(schema: Schema, keys: seq<seq<byte>>, rows: seq<Row>, hash: HashFunction): seq<byte>
    requires ForFields(schema.fields).Success? && Conforming(rows, ForFields(schema.fields).value)
  {
    RootPreimage(hash(PreimageOf(schema, keys)), Saturated(|rows|), Streams(ForFields(schema.fields).value, rows), hash)
  }

  ghost function FingerprintOf(schema: Schema, keys: seq<seq<byte>>, rows: seq<Row>, hash: HashFunction): Digest
    requires ForFields(schema.fields).Success? && Conforming(rows, ForFields(schema.fields).value)
  {
    hash(RootOf(schema, keys, rows, hash))
  }

  // ----- the incremental state ----------------------------------------------------------------

  /** `update_v2`; a column hasher is the byte stream it has absorbed. */
  method UpdateV2(e: Encoder, hasher: seq<byte>, v: Value, scratch: Buffer) returns (r: seq<byte>)
    requires Fits(e, v)
    modifies scratch
    ensures r == hasher + CellV2(e, v)
  {
    if v.Null? {
      return hasher + [0];
    }
    r := hasher + [1];
    match e
    case ScalarEncoder(_) => r := r + v.raw;
      Associative(hasher, [1], v.raw);
    case BooleanEncoder => r := r + [Bit(v.b)];
      Associative(hasher, [1], [Bit(v.b)]);
    case TextEncoder(_) =>
      r := r + Le64(|v.bytes|);
      r := r + v.bytes;
      Associative(hasher + [1], Le64(|v.bytes|), v.bytes);
      Associative(hasher, [1], LenPrefixed(v.bytes));
    case _ =>
      scratch.Clear();
      WriteV1Value(e, v, scratch);
      assert [] + Encode(v) == Encode(v);
      r := r + Le64(|scratch.bytes|);
      r := r + scratch.bytes;
      Associative(hasher + [1], Le64(|Encode(v)|), Encode(v));
      Associative(hasher, [1], LenPrefixed(Encode(v)));
  }

  class V2FingerprintState {
    const schema: Schema
    const schemaDigest: Digest
    const encoders: seq<Encoder>
    var columns: seq<seq<byte>>
    var rows: nat
    const scratch: Buffer
    ghost var seen: seq<Row>

    ghost predicate Valid()
      reads this
    {
      && Conforming(seen, encoders)
      && rows == Saturated(|seen|)
      && columns == Streams(encoders, seen)
    }

    constructor (schema: Schema, keys: seq<seq<byte>>, encoders: seq<Encoder>, hash: HashFunction)
      requires ForFields(schema.fields) == Success(encoders)
      ensures Valid() && seen == [] && fresh(scratch)
      ensures this.schema == schema && this.encoders == encoders
      ensures schemaDigest == hash(PreimageOf(schema, keys))
    {
      this.schema := schema;
      this.schemaDigest := hash(PreimageOf(schema, keys));
      this.encoders := encoders;
      columns := seq(|encoders|, c requires 0 <= c < |encoders| => COLUMN_V2 + Le64(c));
      rows := 0;
      scratch := new Buffer();
      seen := [];
      new;
      forall c | 0 <= c < |columns| ensures columns[c] == ColumnStream(c, encoders, seen) {
        assert Column([], c) == [];
      }
    }

    /** Absorb one batch, column by column. */
    method Update(batch: Batch) returns (ok: bool)
      requires Valid() && WellTyped(batch) && ForFields(schema.fields) == Success(encoders)
      modifies this, scratch
      ensures Valid()
      ensures ok <==> batch.schema == schema
      ensures seen == if ok then old(seen) + batch.rows else old(seen)
    {
      if batch.schema != schema {
        return false;
      }
      TypedRowsConform(batch.rows, schema.fields, encoders);
      AbsorbColumns(batch.rows);
      rows := Saturated(rows + |batch.rows|);
      seen := seen + batch.rows;
      ok := true;
    }

    method AbsorbColumns(batch: seq<Row>)
      requires Conforming(seen, encoders) && Conforming(batch, encoders) && columns == Streams(encoders, seen)
      modifies this`columns, scratch
      ensures Conforming(seen + batch, encoders) && columns == Streams(encoders, seen + batch)
    {
      for column := 0 to |encoders|
        invariant |columns| == |encoders| && Conforming(seen + batch, encoders)
        invariant forall c | 0 <= c < column :: columns[c] == ColumnStream(c, encoders, seen + batch)
        invariant forall c | column <= c < |encoders| :: columns[c] == old(columns)[c]
      {
        var hasher := columns[column];
        hasher := AbsorbColumn(hasher, column, batch);
        columns := columns[column := hasher];
      }
    }

    method AbsorbColumn(hasher: seq<byte>, column: nat, batch: seq<Row>) returns (r: seq<byte>)
      requires column < |encoders| && Conforming(seen, encoders) && Conforming(batch, encoders)
      requires hasher == ColumnStream(column, encoders, seen)
      modifies scratch
      ensures Conforming(seen + batch, encoders)
      ensures r == ColumnStream(column, encoders, seen + batch)
    {
      r := hasher;
      assert seen + batch[..0] == seen;
      for row := 0 to |batch|
        invariant Conforming(seen + batch[..row], encoders)
        invariant r == ColumnStream(column, encoders, seen + batch[..row])
      {
        r := UpdateV2(encoders[column], r, batch[row][column], scratch);
        ColumnStreamSnoc(column, encoders, seen + batch[..row], batch[row]);
        TakeOneMore(seen, batch, row);
      }
      assert batch[..|batch|] == batch;
    }

    /** The digest, recovered from the column hashers alone, is the fingerprint of the rows seen. */
    method Finish(hash: HashFunction) returns (digest: Digest, count: nat)
      requires Valid()
      ensures count == Saturated(|seen|)
      ensures digest == hash(RootPreimage(schemaDigest, count, Streams(encoders, seen), hash))
    {
      var root := FP_V2;
      root := root + schemaDigest;
      root := root + Le64(rows);
      root := root + Le64(|columns|);
      root := AbsorbDigests(root, columns, hash);
      RootPieces(schemaDigest, Le64(rows), Le64(|columns|), Digests(columns, hash));
      digest, count := hash(root), rows;
    }
  }

  /** The column hashers are finalized into the root, each behind its index. */
  method AbsorbDigests(head: seq<byte>, columns: seq<seq<byte>>, hash: HashFunction) returns (root: seq<byte>)
    ensures root == head + Digests(columns, hash)
  {
    root := head;
    for c := 0 to |columns|
      invariant root == head + Digests(columns[..c], hash)
    {
      DigestsSnoc(head, columns, c, hash);
      root := root + Le64(c);
      root := root + hash(columns[c]);
    }
    assert columns[..|columns|] == columns;
  }

  lemma DigestsSnoc(head: seq<byte>, columns: seq<seq<byte>>, c: nat, hash: HashFunction)
    requires c < |columns|
    ensures head + Digests(columns[..c + 1], hash) == head + Digests(columns[..c], hash) + Le64(c) + hash(columns[c])
  {
    assert columns[..c + 1][..c] == columns[..c];
    var before := Digests(columns[..c], hash);
    Associative(head + before, Le64(c), hash(columns[c]));
    Associative(head, before, Le64(c) + hash(columns[c]));
  }

  lemma RootPieces(a: seq<byte>, b: seq<byte>, c: seq<byte>, d: seq<byte>)
    ensures FP_V2 + a + b + c + d == FP_V2 + (a + (b + (c + d)))
  {
    Associative(b, c, d);
    Associative(a, b + c, d);
    Associative(FP_V2, a + (b + c), d);
    Associative(a, b, c);
    Associative(FP_V2, a + b, c);
    Associative(FP_V2, a, b);
  }

  lemma ColumnOfSnoc(rows: seq<Row>, row: Row, c: nat)
    requires c < |row| && forall r | r in rows :: c < |r|
    ensures Column(rows + [row], c) == Column(rows, c) + [row[c]]
  {
  }

  lemma ColumnStreamSnoc(c: nat, encoders: seq<Encoder>, rows: seq<Row>, row: Row)
    requires c < |encoders| && Conforming(rows, encoders) && Conforming([row], encoders)
    ensures Conforming(rows + [row], encoders)
    ensures row in [row] &&
            ColumnStream(c, encoders, rows + [row]) == ColumnStream(c, encoders, rows) + CellV2(encoders[c], row[c])
  {
    assert row in [row];
    ConformingColumn(rows, encoders, c);
    ColumnOfSnoc(rows, row, c);
    ColumnSnoc(encoders[c], Column(rows, c), row[c]);
    Associative(COLUMN_V2 + Le64(c), ColumnV2(encoders[c], Column(rows, c)), CellV2(encoders[c], row[c]));
  }

  /** `fingerprint_v2`: the result depends on the concatenated rows, not on how they were batched. */
  method StreamingFingerprint(schema: Schema, keys: seq<seq<byte>>, batches: seq<Batch>, hash: HashFunction)
    returns (r: Outcome<(Digest, nat)>)
    requires forall b | b in batches :: WellTyped(b)
    ensures r.Ok? <==> ForFields(schema.fields).Success? && forall b | b in batches :: b.schema == schema
    ensures r.Ok? ==> Conforming(AllRows(batches), ForFields(schema.fields).value)
    ensures r.Ok? ==> r.value == (FingerprintOf(schema, keys, AllRows(batches), hash), Saturated(|AllRows(batches)|))
  {
    var plan := ForFields(schema.fields);
    if plan.Unsupported? {
      return UnsupportedType;
    }
    var state := new V2FingerprintState(schema, keys, plan.value, hash);
    for i := 0 to |batches|
      invariant forall b | b in batches[..i] :: b.schema == schema
      invariant fresh(state) && fresh(state.scratch) && state.Valid() && state.seen == AllRows(batches[..i])
    {
      var ok := state.Update(batches[i]);
      if !ok {
        return SchemaMismatch;
      }
      AllRowsStep(batches, i);
    }
    assert batches[..|batches|] == batches;
    var digest, count := state.Finish(hash);
    r := Ok((digest, count));
  }

  // ----- what the fingerprint determines ------------------------------------------------------

  lemma CellUnique(e: Encoder, v: Value, x: seq<byte>, w: Value, y: seq<byte>)
    requires Fits(e, v) && Fits(e, w) && |CellV2(e, v)| < U64 && |CellV2(e, w)| < U64
    requires CellV2(e, v) + x == CellV2(e, w) + y
    ensures v == w && x == y
  {
    FitsIsSupported(e, v);
    FitsIsSupported(e, w);
    assert (CellV2(e, v) + x)[0] == CellV2(e, v)[0] && (CellV2(e, w) + y)[0] == CellV2(e, w)[0];
    if v.Null? {
      SplitEqual([0], x, [0], y);
    } else {
      var a, b := CellV2(e, v)[1..], CellV2(e, w)[1..];
      Associative([1], a, x);
      Associative([1], b, y);
      SplitEqual([1], a + x, [1], b + y);
      match e
      case ScalarEncoder(_) => SplitEqual(v.raw, x, w.raw, y);
      case BooleanEncoder => SplitEqual([Bit(v.b)], x, [Bit(w.b)], y);
      case TextEncoder(_) => LenPrefixedUnique(v.bytes, x, w.bytes, y);
      case _ =>
        LenPrefixedUnique(Encode(v), x, Encode(w), y);
        EncodeInjective(v, w);
    }
  }

  lemma ColumnHead(e: Encoder, column: seq<Value>)
    requires AllFit(e, column) && column != []
    ensures Fits(e, column[0]) && AllFit(e, column[1..])
    ensures ColumnV2(e, column) == CellV2(e, column[0]) + ColumnV2(e, column[1..])
  {
  }

  /** A column's stream determines the column, its length included. */
  lemma {:induction false} ColumnUnique(e: Encoder, a: seq<Value>, b: seq<Value>)
    requires AllFit(e, a) && AllFit(e, b) && |ColumnV2(e, a)| < U64 && |ColumnV2(e, b)| < U64
    requires ColumnV2(e, a) == ColumnV2(e, b)
    ensures a == b
    decreases |a|
  {
    if a != [] && b != [] {
      ColumnHead(e, a);
      ColumnHead(e, b);
      CellUnique(e, a[0], ColumnV2(e, a[1..]), b[0], ColumnV2(e, b[1..]));
      ColumnUnique(e, a[1..], b[1..]);
      assert a == [a[0]] + a[1..] && b == [b[0]] + b[1..];
    }
  }

  /** Every column stream, and every preimage, is short enough to be addressed by a u64. */
  ghost predicate Addressable(encoders: seq<Encoder>, rows: seq<Row>)
    requires Conforming(rows, encoders)
  {
    |encoders| < U64 && |rows| < U64
    && forall c | 0 <= c < |encoders| :: |ColumnStream(c, encoders, rows)| < U64
  }

  /** Every string hashed on the way to a fingerprint. */
  ghost function Hashed(schema: Schema, keys: seq<seq<byte>>, rows: seq<Row>, hash: HashFunction): set<seq<byte>>
    requires ForFields(schema.fields).Success? && Conforming(rows, ForFields(schema.fields).value)
  {
    {PreimageOf(schema, keys), RootOf(schema, keys, rows, hash)}
    + set s | s in Streams(ForFields(schema.fields).value, rows)
  }

  lemma {:induction false} DigestsUnique(a: seq<seq<byte>>, b: seq<seq<byte>>, hash: HashFunction)
    requires |a| == |b| && Digests(a, hash) == Digests(b, hash)
    ensures forall c | 0 <= c < |a| :: hash(a[c]) == hash(b[c])
  {
    if a != [] {
      var n := |a| - 1;
      LastDigest(Digests(a[..n], hash), hash(a[n]), Digests(b[..n], hash), hash(b[n]), Le64(n));
      DigestsUnique(a[..n], b[..n], hash);
    }
  }

  lemma LastDigest(a: seq<byte>, da: Digest, b: seq<byte>, db: Digest, ordinal: seq<byte>)
    requires |a| == |b| && a + (ordinal + da) == b + (ordinal + db)
    ensures a == b && da == db
  {
    SplitEqual(a, ordinal + da, b, ordinal + db);
    SplitEqual(ordinal, da, ordinal, db);
  }

  /** Unless the hash collides on a string it was given, equal V2 fingerprints mean equal rows. */
  lemma FingerprintDeterminesRows(schema: Schema, keys: seq<seq<byte>>, a: seq<Row>, b: seq<Row>, hash: HashFunction)
    requires ForFields(schema.fields).Success?
    requires var es := ForFields(schema.fields).value;
             Conforming(a, es) && Conforming(b, es) && Addressable(es, a) && Addressable(es, b)
    requires CollisionFree(hash, Hashed(schema, keys, a, hash) + Hashed(schema, keys, b, hash))
    requires FingerprintOf(schema, keys, a, hash) == FingerprintOf(schema, keys, b, hash)
    ensures a == b
  {
    var es := ForFields(schema.fields).value;
    RootDeterminesStreams(hash(PreimageOf(schema, keys)), Saturated(|a|), Streams(es, a), Saturated(|b|),
                          Streams(es, b),
                          hash, Hashed(schema, keys, a, hash) + Hashed(schema, keys, b, hash));
    StreamsDetermineRows(es, a, b);
  }

  lemma RootDeterminesStreams(d: Digest, n: nat, a: seq<seq<byte>>, m: nat, b: seq<seq<byte>>, hash: HashFunction,
                              hashed: set<seq<byte>>)
    requires n < U64 && m < U64 && |a| == |b| < U64
    requires CollisionFree(hash, hashed) && (forall s | s in a :: s in hashed) && (forall s | s in b :: s in hashed)
    requires RootPreimage(d, n, a, hash) in hashed && RootPreimage(d, m, b, hash) in hashed
    requires hash(RootPreimage(d, n, a, hash)) == hash(RootPreimage(d, m, b, hash))
    ensures n == m && a == b
  {
    RootUnique(d, n, a, d, m, b, hash);
    DigestsUnique(a, b, hash);
    forall c | 0 <= c < |a| ensures a[c] == b[c] {
      assert a[c] in a && b[c] in b;
    }
  }

  /** For a fixed schema, the column streams together with the row count determine the rows. */
  lemma StreamsDetermineRows(es: seq<Encoder>, a: seq<Row>, b: seq<Row>)
    requires Conforming(a, es) && Conforming(b, es) && Addressable(es, a) && Addressable(es, b)
    requires |a| == |b| && Streams(es, a) == Streams(es, b)
    ensures a == b
  {
    forall c | 0 <= c < |es| ensures Column(a, c) == Column(b, c) {
      StreamDeterminesColumn(c, es, a, b);
    }
    forall i | 0 <= i < |a| ensures a[i] == b[i] {
      assert a[i] in a && b[i] in b;
      forall c | 0 <= c < |es| ensures a[i][c] == b[i][c] {
        assert Column(a, c)[i] == a[i][c] && Column(b, c)[i] == b[i][c];
      }
    }
  }

  lemma StreamDeterminesColumn(c: nat, es: seq<Encoder>, a: seq<Row>, b: seq<Row>)
    requires Conforming(a, es) && Conforming(b, es) && c < |es|
    requires ColumnStream(c, es, a) == ColumnStream(c, es, b) && |ColumnStream(c, es, a)| < U64
    ensures Column(a, c) == Column(b, c)
  {
    ConformingColumn(a, es, c);
    ConformingColumn(b, es, c);
    var ca, cb := ColumnV2(es[c], Column(a, c)), ColumnV2(es[c], Column(b, c));
    SplitEqual(COLUMN_V2 + Le64(c), ca, COLUMN_V2 + Le64(c), cb);
    ColumnUnique(es[c], Column(a, c), Column(b, c));
  }

  lemma RootUnique(d: Digest, n: nat, a: seq<seq<byte>>, e: Digest, m: nat, b: seq<seq<byte>>, hash: HashFunction)
    requires n < U64 && m < U64 && |a| < U64 && |b| < U64
    requires RootPreimage(d, n, a, hash) == RootPreimage(e, m, b, hash)
    ensures d == e && n == m && |a| == |b| && Digests(a, hash) == Digests(b, hash)
  {
    var ds, es := Digests(a, hash), Digests(b, hash);
    SplitEqual(FP_V2, d + (Le64(n) + (Le64(|a|) + ds)), FP_V2, e + (Le64(m) + (Le64(|b|) + es)));
    SplitEqual(d, Le64(n) + (Le64(|a|) + ds), e, Le64(m) + (Le64(|b|) + es));
    SplitEqual(Le64(n), Le64(|a|) + ds, Le64(m), Le64(|b|) + es);
    SplitEqual(Le64(|a|), ds, Le64(|b|), es);
    Le64RoundTrip(n);
    Le64RoundTrip(m);
    Le64RoundTrip(|a|);
    Le64RoundTrip(|b|);
  }

  /** Across schemas: equal fingerprints also fix the selected keys and everything they select. */
  lemma FingerprintDeterminesSchema(s: Schema, ks: seq<seq<byte>>, a: seq<Row>, r: Schema, ls: seq<seq<byte>>,
                                    b: seq<Row>, hash: HashFunction)
    requires ForFields(s.fields).Success? && ForFields(r.fields).Success?
    requires Conforming(a, ForFields(s.fields).value) && Conforming(b, ForFields(r.fields).value)
    requires (forall f | f in s.fields :: Describable(f.dataType)) &&
             (forall f | f in r.fields :: Describable(f.dataType))
    requires |ks| < U64 && |ls| < U64 && |PreimageOf(s, ks)| < U64 && |PreimageOf(r, ls)| < U64
    requires |s.fields| < U64 && |r.fields| < U64
    requires CollisionFree(hash, Hashed(s, ks, a, hash) + Hashed(r, ls, b, hash))
    requires FingerprintOf(s, ks, a, hash) == FingerprintOf(r, ls, b, hash)
    ensures ks == ls && SameMetadata(s.metadata, r.metadata, ks) && SameFields(s.fields, r.fields, ks)
  {
    var es, fs := ForFields(s.fields).value, ForFields(r.fields).value;
    assert RootOf(s, ks, a, hash) == RootOf(r, ls, b, hash);
    RootUnique(hash(PreimageOf(s, ks)), Saturated(|a|), Streams(es, a),
               hash(PreimageOf(r, ls)), Saturated(|b|), Streams(fs, b), hash);
    assert PreimageOf(s, ks) in Hashed(s, ks, a, hash) && PreimageOf(r, ls) in Hashed(r, ls, b, hash);
    PreimageDeterminesSchema(s, ks, r, ls);
  }

  // ----- the preimages in plain terms ----------------------------------------------------------------

  /** Column c of the digest list: its ordinal, then the hash of its stream. */
  lemma {:induction false} DigestAt(streams: seq<seq<byte>>, hash: HashFunction, c: nat)
    requires c < |streams|
    ensures Digests(streams, hash)[40 * c..40 * c + 8] == Le64(c)
    ensures Digests(streams, hash)[40 * c + 8..40 * c + 40] == hash(streams[c])
    decreases |streams|
  {
    var n := |streams| - 1;
    var before := Digests(streams[..n], hash);
    if c < n {
      DigestAt(streams[..n], hash, c);
      var last := Le64(n) + hash(streams[n]);
      assert (before + last)[40 * c..40 * c + 8] == before[40 * c..40 * c + 8];
      assert (before + last)[40 * c + 8..40 * c + 40] == before[40 * c + 8..40 * c + 40];
    }
  }

  /** What the root hash absorbs: domain, schema digest, row count, column count, column digests. */
  lemma RootBytes(schema: Schema, keys: seq<seq<byte>>, rows: seq<Row>, hash: HashFunction)
    requires ForFields(schema.fields).Success? && Conforming(rows, ForFields(schema.fields).value) && |rows| < U64
    ensures var streams := Streams(ForFields(schema.fields).value, rows);
            && |streams| == |schema.fields|
            && RootOf(schema, keys, rows, hash) ==
               [112, 102, 45, 102, 112, 45, 118, 50, 0] + (hash(PreimageOf(schema, keys)) + (Le64(|rows|) +
                 (Le64(|schema.fields|) + Digests(streams, hash))))
  {
  }

  /** What a column hash absorbs: domain, ordinal, then the cells in row order. */
  lemma StreamBytes(c: nat, encoders: seq<Encoder>, rows: seq<Row>)
    requires Conforming(rows, encoders) && c < |encoders|
    ensures AllFit(encoders[c], Column(rows, c))
    ensures ColumnStream(c, encoders, rows) ==
            [112, 102, 45, 102, 112, 45, 118, 50, 45, 99, 111, 108, 117, 109, 110, 0] + Le64(c) +
              ColumnV2(encoders[c], Column(rows, c))
  {
    ConformingColumn(rows, encoders, c);
  }

  /** One cell: absent, or present and followed by its value without the type tag. */
  lemma CellBytes(e: Encoder, v: Value)
    requires Fits(e, v)
    ensures v.Null? ==> CellV2(e, v) == [0]
    ensures e.ScalarEncoder? && v.Scalar? ==> CellV2(e, v) == [1] + v.raw
    ensures e.BooleanEncoder? && v.Boolean? ==> CellV2(e, v) == [1] + [if v.b then 1 else 0]
    ensures e.TextEncoder? && v.Text? ==> CellV2(e, v) == [1] + (Le64(|v.bytes|) + v.bytes)
    ensures Supported(v) && (v.Sequence? || v.Struct? ==> CellV2(e, v) == [1] + (Le64(|Encode(v)|) + Encode(v)))
  {
    FitsIsSupported(e, v);
  }
}
