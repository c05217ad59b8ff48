/**
 Two producers of the V1 dataset fingerprint: the profiler, which encodes every cell on its own,
 and the schema-compiled fast path. Both absorb the same byte stream, whatever the batch sizes.
 */
module FingerprintV1 {
  import opened Bytes
  import opened Sequences
  import opened Canonical
  import opened ValueEncoder

  datatype Schema = Schema(fields: seq<Field>, metadata: map<seq<byte>, seq<byte>>)

  /** Rows as Arrow delivers them: one batch after another, each with its own schema. */
  datatype Batch = Batch(schema: Schema, rows: seq<Row>)

  datatype Outcome<+T> = Ok(value: T) | SchemaMismatch | UnsupportedType

  /** An Arrow batch cannot hold a cell that is not of its column's type. */
  ghost predicate WellTyped(b: Batch) {
    forall r | r in b.rows :: RowHasSchema(r, b.schema.fields)
  }

  predicate RowHasSchema(row: Row, fields: seq<Field>) {
    |row| == |fields| && forall c | 0 <= c < |fields| :: HasType(row[c], fields[c].dataType)
  }

  ghost function AllRows(batches: seq<Batch>): seq<Row> {
    if batches == [] then []
    else AllRows(batches[..|batches| - 1]) + batches[|batches| - 1].rows
  }

  ghost predicate SupportedRow(row: Row) { forall v | v in row :: Supported(v) }

  ghost predicate SupportedRows(rows: seq<Row>) { forall r | r in rows :: SupportedRow(r) }

  const FP_V1: seq<byte> := [112, 102, 45, 102, 112, 45, 118, 49, 0]  // "pf-fp-v1\0"
  const SCHEMA_FIELD_V1: seq<byte> := [112, 102, 45, 115, 99, 104, 101, 109, 97, 45, 102, 105, 101, 108, 100, 45, 118,
                                       49, 0]  // "pf-schema-field-v1\0"
  const FP_BODY_V1: seq<byte> := [112, 102, 45, 102, 112, 45, 98, 111, 100, 121, 45, 118, 49, 0]  // "pf-fp-body-v1\0"

  /** How Arrow renders a type as text; left abstract. */
  type TypeName = DataType -> seq<byte>

  function FieldV1(f: Field, typeName: TypeName): seq<byte> {
    SCHEMA_FIELD_V1 + LenPrefixed(f.name) + LenPrefixed(typeName(f.dataType)) + [Bit(f.nullable)]
  }

  ghost function HeaderV1(fields: seq<Field>, typeName: TypeName): seq<byte> {
    if fields == [] then FP_V1
    else HeaderV1(fields[..|fields| - 1], typeName) + FieldV1(fields[|fields| - 1], typeName)
  }

  /** The cells of a row, left to right, each under its own ordinal. */
  ghost function RowV1(cells: Row): seq<byte>
    requires SupportedRow(cells)
  {
    if cells == [] then []
    else
      var n := |cells| - 1;
      RowV1(cells[..n]) + CellV1(n, cells[n])
  }

  ghost function BodyV1(rows: seq<Row>): seq<byte>
    requires SupportedRows(rows)
  {
    if rows == [] then []
    else
      BodyV1(rows[..|rows| - 1]) + RowV1(rows[|rows| - 1])
  }

  /** The whole V1 preimage. It mentions rows only: batch boundaries have left no trace. */
  ghost function PreimageV1(fields: seq<Field>, typeName: TypeName, rows: seq<Row>): seq<byte>
    requires SupportedRows(rows)
  {
    HeaderV1(fields, typeName) + FP_BODY_V1 + BodyV1(rows)
  }

  lemma AllRowsStep(batches: seq<Batch>, i: nat)
    requires i < |batches|
    ensures AllRows(batches[..i + 1]) == AllRows(batches[..i]) + batches[i].rows
  {
    assert batches[..i + 1][..i] == batches[..i];
  }

  lemma BodyStep(head: seq<byte>, rows: seq<Row>, row: Row)
    requires SupportedRows(rows) && SupportedRow(row)
    ensures SupportedRows(rows + [row])
    ensures head + BodyV1(rows) + RowV1(row) == head + BodyV1(rows + [row])
  {
    assert (rows + [row])[..|rows|] == rows;
    Associative(head, BodyV1(rows), RowV1(row));
  }

  lemma TypedRowsAreSupported(rows: seq<Row>, fields: seq<Field>)
    requires ForFields(fields).Success?
    requires forall r | r in rows :: RowHasSchema(r, fields)
    ensures SupportedRows(rows)
  {
    forall r, c: nat | r in rows && c < |r| ensures Supported(r[c]) {
      assert fields[c] in fields;
      TypedCellFits(r[c], fields[c].dataType);
      FitsIsSupported(ForDataType(fields[c].dataType).value, r[c]);
    }
  }

  method AbsorbHeader(hasher: Buffer, fields: seq<Field>, typeName: TypeName)
    modifies hasher
    ensures hasher.bytes == old(hasher.bytes) + HeaderV1(fields, typeName)
  {
    hasher.Extend(FP_V1);
    for i := 0 to |fields|
      invariant hasher.bytes == old(hasher.bytes) + HeaderV1(fields[..i], typeName)
    {
      ghost var before := hasher.bytes;
      var f := fields[i];
      hasher.Extend(SCHEMA_FIELD_V1);
      hasher.Extend(LenPrefixed(f.name));
      hasher.Extend(LenPrefixed(typeName(f.dataType)));
      hasher.Extend([Bit(f.nullable)]);
      FieldPieces(before, f, typeName);
      assert fields[..i + 1][..i] == fields[..i];
      Associative(old(hasher.bytes), HeaderV1(fields[..i], typeName), FieldV1(f, typeName));
    }
    assert fields[..|fields|] == fields;
  }

  lemma FieldPieces(base: seq<byte>, f: Field, typeName: TypeName)
    ensures base + SCHEMA_FIELD_V1 + LenPrefixed(f.name) + LenPrefixed(typeName(f.dataType))
              + [Bit(f.nullable)] == base + FieldV1(f, typeName)
  {
    var a, b, c, d := SCHEMA_FIELD_V1, LenPrefixed(f.name), LenPrefixed(typeName(f.dataType)), [Bit(f.nullable)];
    Associative(base, a, b);
    Associative(base, a + b, c);
    Associative(base, a + b + c, d);
  }

  /** `fingerprint_v1`. Unsupported schema types are refused before the first batch is read. */
  method FastFingerprint(schema: Schema, batches: seq<Batch>, typeName: TypeName, hash: HashFunction)
    returns (r: Outcome<(Digest, nat)>)
    requires forall b | b in batches :: WellTyped(b)
    ensures r.Ok? <==> ForFields(schema.fields).Success? && forall b | b in batches :: b.schema == schema
    ensures r.Ok? ==> SupportedRows(AllRows(batches))
    ensures r.Ok? ==> r.value == (hash(PreimageV1(schema.fields, typeName, AllRows(batches))), |AllRows(batches)|)
  {
    var plan := ForFields(schema.fields);
    if plan.Unsupported? {
      return UnsupportedType;
    }
    var hasher := new Buffer();
    var scratch := new Buffer();
    var rows := 0;
    AbsorbHeader(hasher, schema.fields, typeName);
    hasher.Extend(FP_BODY_V1);
    ghost var head := hasher.bytes;
    assert [] + HeaderV1(schema.fields, typeName) == HeaderV1(schema.fields, typeName);
    for i := 0 to |batches|
      invariant forall b | b in batches[..i] :: b.schema == schema
      invariant rows == |AllRows(batches[..i])| && SupportedRows(AllRows(batches[..i]))
      invariant hasher != scratch && fresh(hasher) && fresh(scratch)
      invariant hasher.bytes == head + BodyV1(AllRows(batches[..i]))
    {
      var batch := batches[i];
      if batch.schema != schema {
        return SchemaMismatch;
      }
      assert WellTyped(batch);
      AbsorbBatch(hasher, scratch, schema.fields, plan.value, batch.rows, head, AllRows(batches[..i]));
      rows := rows + |batch.rows|;
      AllRowsStep(batches, i);
    }
    assert batches[..|batches|] == batches;
    r := Ok((hash(hasher.bytes), rows));
  }

  method AbsorbBatch(hasher: Buffer, scratch: Buffer, fields: seq<Field>, encoders: seq<Encoder>,
                     rows: seq<Row>, ghost head: seq<byte>, ghost before: seq<Row>)
    requires hasher != scratch && ForFields(fields) == Success(encoders)
    requires forall r | r in rows :: RowHasSchema(r, fields)
    requires SupportedRows(before) && hasher.bytes == head + BodyV1(before)
    modifies hasher, scratch
    ensures SupportedRows(before + rows) && hasher.bytes == head + BodyV1(before + rows)
  {
    assert before + rows[..0] == before;
    for row := 0 to |rows|
      invariant SupportedRows(before + rows[..row])
      invariant hasher.bytes == head + BodyV1(before + rows[..row])
    {
      AbsorbRow(hasher, scratch, fields, encoders, rows[row]);
      BodyStep(head, before + rows[..row], rows[row]);
      TakeOneMore(before, rows, row);
    }
    assert rows[..|rows|] == rows;
  }

  method AbsorbRow(hasher: Buffer, scratch: Buffer, fields: seq<Field>, encoders: seq<Encoder>, row: Row)
    requires hasher != scratch && ForFields(fields) == Success(encoders) && RowHasSchema(row, fields)
    modifies hasher, scratch
    ensures SupportedRow(row)
    ensures hasher.bytes == old(hasher.bytes) + RowV1(row)
  {
    TypedRowsAreSupported([row], fields);
    assert row in [row];
    for column := 0 to |encoders|
      invariant hasher.bytes == old(hasher.bytes) + RowV1(row[..column])
    {
      assert ForDataType(fields[column].dataType) == Success(encoders[column]);
      TypedCellFits(row[column], fields[column].dataType);
      UpdateV1(encoders[column], hasher, column, row[column], scratch);
      assert row[..column + 1][..column] == row[..column];
      Associative(old(hasher.bytes), RowV1(row[..column]), CellV1(column, row[column]));
    }
    assert row[..|row|] == row;
  }

  /** The fingerprint the profiler computes beside its statistics (`inspect_batches`). */
  method ProfileFingerprint(schema: Schema, batches: seq<Batch>, typeName: TypeName, hash: HashFunction)
    returns (r: Outcome<Digest>)
    requires forall b | b in batches :: WellTyped(b)
    ensures r.Ok? <==> (forall b | b in batches :: b.schema == schema) && SupportedRows(AllRows(batches))
    ensures r.Ok? ==> r.value == hash(PreimageV1(schema.fields, typeName, AllRows(batches)))
  {
    var hasher := new Buffer();
    AbsorbHeader(hasher, schema.fields, typeName);
    hasher.Extend(FP_BODY_V1);
    ghost var head := hasher.bytes;
    assert [] + HeaderV1(schema.fields, typeName) == HeaderV1(schema.fields, typeName);
    for i := 0 to |batches|
      invariant forall b | b in batches[..i] :: b.schema == schema
      invariant SupportedRows(AllRows(batches[..i])) && fresh(hasher)
      invariant hasher.bytes == head + BodyV1(AllRows(batches[..i]))
    {
      var batch := batches[i];
      RowsOfBatch(batches, i);
      if batch.schema != schema {
        return SchemaMismatch;
      }
      assert WellTyped(batch);
      var ok := InspectBatch(hasher, batch.rows, schema.fields, head, AllRows(batches[..i]));
      if !ok {
        return UnsupportedType;
      }
      AllRowsStep(batches, i);
    }
    assert batches[..|batches|] == batches;
    r := Ok(hash(hasher.bytes));
  }

  method InspectBatch(hasher: Buffer, rows: seq<Row>, ghost fields: seq<Field>,
                      ghost head: seq<byte>, ghost before: seq<Row>) returns (ok: bool)
    requires forall r | r in rows :: RowHasSchema(r, fields)
    requires SupportedRows(before) && hasher.bytes == head + BodyV1(before)
    modifies hasher
    ensures ok <==> SupportedRows(rows)
    ensures ok ==> SupportedRows(before + rows) && hasher.bytes == head + BodyV1(before + rows)
  {
    assert before + rows[..0] == before;
    for row := 0 to |rows|
      invariant SupportedRows(rows[..row]) && SupportedRows(before + rows[..row])
      invariant hasher.bytes == head + BodyV1(before + rows[..row])
    {
      ok := InspectRow(hasher, rows[row], fields);
      if !ok {
        return;
      }
      BodyStep(head, before + rows[..row], rows[row]);
      TakeOneMore(before, rows, row);
    }
    assert rows[..|rows|] == rows;
    ok := true;
  }

  method InspectRow(hasher: Buffer, row: Row, ghost fields: seq<Field>) returns (ok: bool)
    requires RowHasSchema(row, fields)
    modifies hasher
    ensures ok <==> SupportedRow(row)
    ensures ok ==> hasher.bytes == old(hasher.bytes) + RowV1(row)
  {
    for column := 0 to |row|
      invariant forall v | v in row[..column] :: Supported(v)
      invariant hasher.bytes == old(hasher.bytes) + RowV1(row[..column])
    {
      TypedCell(row[column], fields[column].dataType);
      ok := UpdateHash(hasher, column, row[column]);
      if !ok {
        return;
      }
      assert row[..column + 1][..column] == row[..column];
      Associative(old(hasher.bytes), RowV1(row[..column]), CellV1(column, row[column]));
    }
    assert row[..|row|] == row;
    ok := true;
  }

  lemma {:induction false} RowsOfBatch(batches: seq<Batch>, i: nat)
    requires i < |batches|
    ensures forall r | r in batches[i].rows :: r in AllRows(batches)
  {
    if i < |batches| - 1 {
      RowsOfBatch(batches[..|batches| - 1], i);
    }
  }

  lemma {:induction false} TypedCell(v: Value, t: DataType)
    requires HasType(v, t)
    ensures Typed(v)
    decreases t
  {
    match t
    case StructType(fields) =>
      if v.Struct? {
        forall i | 0 <= i < |v.fields| ensures Typed(v.fields[i]) {
          TypedCell(v.fields[i], fields[i].dataType);
        }
      }
    case ListType(item) => TypedElements(v, item);
    case LargeListType(item) => TypedElements(v, item);
    case FixedSizeListType(item, _) => TypedElements(v, item);
    case MapType(item, _) => TypedElements(v, item);
    case _ =>
  }

  lemma {:induction false} TypedElements(v: Value, item: Field)
    requires v.Sequence? ==> AllHaveType(v.elements, item)
    ensures v.Sequence? ==> forall e | e in v.elements :: Typed(e)
    decreases item
  {
    if v.Sequence? {
      forall i | 0 <= i < |v.elements| ensures Typed(v.elements[i]) {
        TypedCell(v.elements[i], item.dataType);
      }
    }
  }

  // ----- what the preimage determines ----------------------------------------------------------------

  /** The fields from the left, as a reader of the preimage meets them. */
  ghost function FieldsV1(fields: seq<Field>, typeName: TypeName): seq<byte> {
    if fields == [] then [] else FieldV1(fields[0], typeName) + FieldsV1(fields[1..], typeName)
  }

  lemma {:induction false} FieldsSnoc(fields: seq<Field>, f: Field, typeName: TypeName)
    ensures FieldsV1(fields + [f], typeName) == FieldsV1(fields, typeName) + FieldV1(f, typeName)
    decreases |fields|
  {
    if fields == [] {
      assert [f][1..] == [];
    } else {
      assert (fields + [f])[1..] == fields[1..] + [f];
      FieldsSnoc(fields[1..], f, typeName);
      Associative(FieldV1(fields[0], typeName), FieldsV1(fields[1..], typeName), FieldV1(f, typeName));
    }
  }

  lemma {:induction false} HeaderFromLeft(fields: seq<Field>, typeName: TypeName)
    ensures HeaderV1(fields, typeName) == FP_V1 + FieldsV1(fields, typeName)
    decreases |fields|
  {
    if fields == [] {
      assert FP_V1 + [] == FP_V1;
    } else {
      var n := |fields| - 1;
      HeaderFromLeft(fields[..n], typeName);
      FieldsSnoc(fields[..n], fields[n], typeName);
      assert fields[..n] + [fields[n]] == fields;
      Associative(FP_V1, FieldsV1(fields[..n], typeName), FieldV1(fields[n], typeName));
    }
  }

  lemma FieldUnique(f: Field, x: seq<byte>, g: Field, y: seq<byte>, typeName: TypeName)
    requires |FieldV1(f, typeName)| < U64 && |FieldV1(g, typeName)| < U64
    requires FieldV1(f, typeName) + x == FieldV1(g, typeName) + y
    ensures f.name == g.name && typeName(f.dataType) == typeName(g.dataType) && f.nullable == g.nullable && x == y
  {
    var ft, gt := LenPrefixed(typeName(f.dataType)), LenPrefixed(typeName(g.dataType));
    FieldRest(f, x, typeName);
    FieldRest(g, y, typeName);
    SplitEqual(SCHEMA_FIELD_V1, LenPrefixed(f.name) + (ft + ([Bit(f.nullable)] + x)),
               SCHEMA_FIELD_V1, LenPrefixed(g.name) + (gt + ([Bit(g.nullable)] + y)));
    LenPrefixedUnique(f.name, ft + ([Bit(f.nullable)] + x), g.name, gt + ([Bit(g.nullable)] + y));
    LenPrefixedUnique(typeName(f.dataType), [Bit(f.nullable)] + x, typeName(g.dataType), [Bit(g.nullable)] + y);
    SplitEqual([Bit(f.nullable)], x, [Bit(g.nullable)], y);
  }

  lemma FieldRest(f: Field, x: seq<byte>, typeName: TypeName)
    ensures FieldV1(f, typeName) + x ==
            SCHEMA_FIELD_V1 + (LenPrefixed(f.name) + (LenPrefixed(typeName(f.dataType)) + ([Bit(f.nullable)] + x)))
  {
    var a, b, c, d := SCHEMA_FIELD_V1, LenPrefixed(f.name), LenPrefixed(typeName(f.dataType)), [Bit(f.nullable)];
    Associative(a + b + c, d, x);
    Associative(a + b, c, d + x);
    Associative(a, b, c + (d + x));
  }

  /** A field begins differently from the body, so a reader always knows whether another field follows. */
  lemma {:induction false} FieldsUnique(fs: seq<Field>, x: seq<byte>, gs: seq<Field>, y: seq<byte>, typeName: TypeName)
    requires |FieldsV1(fs, typeName)| < U64 && |FieldsV1(gs, typeName)| < U64
    requires FieldsV1(fs, typeName) + (FP_BODY_V1 + x) == FieldsV1(gs, typeName) + (FP_BODY_V1 + y)
    ensures |fs| == |gs| && x == y
    ensures forall i | 0 <= i < |fs| ::
              fs[i].name == gs[i].name && typeName(fs[i].dataType) == typeName(gs[i].dataType) &&
                fs[i].nullable == gs[i].nullable
    decreases |fs|
  {
    if fs == [] || gs == [] {
      FieldsOrBody(fs, x, typeName);
      FieldsOrBody(gs, y, typeName);
      assert fs == gs == [];
      assert [] + (FP_BODY_V1 + x) == FP_BODY_V1 + x && [] + (FP_BODY_V1 + y) == FP_BODY_V1 + y;
      SplitEqual(FP_BODY_V1, x, FP_BODY_V1, y);
    } else {
      var rf, rg := FieldsV1(fs[1..], typeName), FieldsV1(gs[1..], typeName);
      Associative(FieldV1(fs[0], typeName), rf, FP_BODY_V1 + x);
      Associative(FieldV1(gs[0], typeName), rg, FP_BODY_V1 + y);
      FieldUnique(fs[0], rf + (FP_BODY_V1 + x), gs[0], rg + (FP_BODY_V1 + y), typeName);
      FieldsUnique(fs[1..], x, gs[1..], y, typeName);
    }
  }

  lemma FieldsOrBody(fs: seq<Field>, x: seq<byte>, typeName: TypeName)
    ensures |FieldsV1(fs, typeName) + (FP_BODY_V1 + x)| > 3
    ensures (FieldsV1(fs, typeName) + (FP_BODY_V1 + x))[3] == if fs == [] then 102 else 115
  {
    if fs != [] {
      var all := FieldsV1(fs, typeName) + (FP_BODY_V1 + x);
      Associative(FieldV1(fs[0], typeName), FieldsV1(fs[1..], typeName), FP_BODY_V1 + x);
      FieldRest(fs[0], FieldsV1(fs[1..], typeName) + (FP_BODY_V1 + x), typeName);
      assert all[3] == SCHEMA_FIELD_V1[3];
    }
  }

  /** The encoded cells of a row, and the encoded rows of a body. */
  ghost function RowPieces(cells: Row): (r: seq<seq<byte>>)
    requires SupportedRow(cells)
    ensures |r| == |cells| && forall i | 0 <= i < |r| :: r[i] == CellV1(i, cells[i])
  {
    seq(|cells|, i requires 0 <= i < |cells| && SupportedRow(cells) => CellV1(i, cells[i]))
  }

  lemma {:induction false} RowIsPieces(cells: Row)
    requires SupportedRow(cells)
    ensures RowV1(cells) == Flatten(RowPieces(cells))
    decreases |cells|
  {
    if cells != [] {
      var n := |cells| - 1;
      RowIsPieces(cells[..n]);
      assert RowPieces(cells)[..n] == RowPieces(cells[..n]);
    }
  }

  ghost function BodyPieces(rows: seq<Row>): (r: seq<seq<byte>>)
    requires SupportedRows(rows)
    ensures |r| == |rows| && forall i | 0 <= i < |r| :: r[i] == RowV1(rows[i])
  {
    seq(|rows|, i requires 0 <= i < |rows| && SupportedRows(rows) => RowV1(rows[i]))
  }

  lemma {:induction false} BodyIsPieces(rows: seq<Row>)
    requires SupportedRows(rows)
    ensures BodyV1(rows) == Flatten(BodyPieces(rows))
    decreases |rows|
  {
    if rows != [] {
      var n := |rows| - 1;
      BodyIsPieces(rows[..n]);
      assert BodyPieces(rows)[..n] == BodyPieces(rows[..n]);
    }
  }

  lemma CellUnique(n: nat, v: Value, x: seq<byte>, w: Value, y: seq<byte>)
    requires Supported(v) && Supported(w) && |CellV1(n, v)| < U64 && |CellV1(n, w)| < U64
    requires CellV1(n, v) + x == CellV1(n, w) + y
    ensures v == w && x == y
  {
    Associative(CELL_V1 + Le64(n), LenPrefixed(Encode(v)), x);
    Associative(CELL_V1 + Le64(n), LenPrefixed(Encode(w)), y);
    SplitEqual(CELL_V1 + Le64(n), LenPrefixed(Encode(v)) + x, CELL_V1 + Le64(n), LenPrefixed(Encode(w)) + y);
    LenPrefixedUnique(Encode(v), x, Encode(w), y);
    EncodeInjective(v, w);
  }

  lemma FlattenFrom(pieces: seq<seq<byte>>, k: nat)
    requires k < |pieces|
    ensures Flatten(pieces[k..]) == pieces[k] + Flatten(pieces[k + 1..])
  {
    FlattenHead(pieces[k..]);
    assert pieces[k..][1..] == pieces[k + 1..];
  }

  lemma CellFirst(a: Row, k: nat, x: seq<byte>)
    requires k < |a| && SupportedRow(a)
    ensures Flatten(RowPieces(a)[k..]) + x == CellV1(k, a[k]) + (Flatten(RowPieces(a)[k + 1..]) + x)
    ensures |CellV1(k, a[k])| + |Flatten(RowPieces(a)[k + 1..])| == |Flatten(RowPieces(a)[k..])|
  {
    FlattenFrom(RowPieces(a), k);
    Associative(CellV1(k, a[k]), Flatten(RowPieces(a)[k + 1..]), x);
  }

  lemma {:induction false} CellsUnique(a: Row, x: seq<byte>, b: Row, y: seq<byte>, k: nat)
    requires k <= |a| == |b| && SupportedRow(a) && SupportedRow(b)
    requires |Flatten(RowPieces(a)[k..])| < U64 && |Flatten(RowPieces(b)[k..])| < U64
    requires Flatten(RowPieces(a)[k..]) + x == Flatten(RowPieces(b)[k..]) + y
    ensures (forall i | k <= i < |a| :: a[i] == b[i]) && x == y
    decreases |a| - k
  {
    if k == |a| {
      assert [] + x == x && [] + y == y;
    } else {
      var rest, more := Flatten(RowPieces(a)[k + 1..]), Flatten(RowPieces(b)[k + 1..]);
      CellFirst(a, k, x);
      CellFirst(b, k, y);
      CellUnique(k, a[k], rest + x, b[k], more + y);
      CellsUnique(a, x, b, y, k + 1);
    }
  }

  lemma RowUnique(a: Row, x: seq<byte>, b: Row, y: seq<byte>)
    requires |a| == |b| && SupportedRow(a) && SupportedRow(b) && |RowV1(a)| < U64 && |RowV1(b)| < U64
    requires RowV1(a) + x == RowV1(b) + y
    ensures a == b && x == y
  {
    RowIsPieces(a);
    RowIsPieces(b);
    assert RowPieces(a)[0..] == RowPieces(a) && RowPieces(b)[0..] == RowPieces(b);
    CellsUnique(a, x, b, y, 0);
  }

  lemma RowNotEmpty(cells: Row)
    requires SupportedRow(cells) && cells != []
    ensures |RowV1(cells)| > 0
  {
    assert |CellV1(|cells| - 1, cells[|cells| - 1])| > 0;
  }

  lemma RowsDelimited(a: Row, b: Row)
    requires |a| == |b| && SupportedRow(a) && SupportedRow(b) && |RowV1(a)| < U64 && |RowV1(b)| < U64
    ensures Delimited(RowV1(a), RowV1(b))
  {
    forall x, y | RowV1(a) + x == RowV1(b) + y ensures RowV1(a) == RowV1(b) {
      RowUnique(a, x, b, y);
    }
  }

  lemma BodyUnique(a: seq<Row>, b: seq<Row>, width: nat)
    requires SupportedRows(a) && SupportedRows(b) && width > 0
    requires (forall r | r in a :: |r| == width) && forall r | r in b :: |r| == width
    requires |BodyV1(a)| < U64 && BodyV1(a) == BodyV1(b)
    ensures a == b
  {
    var p, q := BodyPieces(a), BodyPieces(b);
    BodyIsPieces(a);
    BodyIsPieces(b);
    forall i | 0 <= i < |p| ensures p[i] != [] && |p[i]| < U64 {
      PieceFits(p, i);
      RowNotEmpty(a[i]);
    }
    forall i | 0 <= i < |q| ensures q[i] != [] && |q[i]| < U64 {
      PieceFits(q, i);
      RowNotEmpty(b[i]);
    }
    forall i | 0 <= i < |p| && i < |q| ensures Delimited(p[i], q[i]) {
      RowsDelimited(a[i], b[i]);
    }
    FlattenUnique(p, q);
    forall i | 0 <= i < |a| ensures a[i] == b[i] {
      assert p[i] == RowV1(a[i]) && q[i] == RowV1(b[i]);
      RowUnique(a[i], [], b[i], []);
    }
  }

  /**
   Equal preimages: the same columns by name, rendered type and nullability, in order; and, when there is
   a column at all, the same rows.
   */
  lemma PreimageV1Determines(fs: seq<Field>, a: seq<Row>, gs: seq<Field>, b: seq<Row>, typeName: TypeName)
    requires SupportedRows(a) && SupportedRows(b)
    requires (forall r | r in a :: |r| == |fs|) && (forall r | r in b :: |r| == |gs|)
    requires |PreimageV1(fs, typeName, a)| < U64
    requires PreimageV1(fs, typeName, a) == PreimageV1(gs, typeName, b)
    ensures |fs| == |gs|
    ensures forall i | 0 <= i < |fs| ::
              fs[i].name == gs[i].name && typeName(fs[i].dataType) == typeName(gs[i].dataType) &&
                fs[i].nullable == gs[i].nullable
    ensures |fs| > 0 ==> a == b
  {
    PreimageFromLeft(fs, a, typeName);
    PreimageFromLeft(gs, b, typeName);
    SplitEqual(FP_V1, FieldsV1(fs, typeName) + (FP_BODY_V1 + BodyV1(a)),
               FP_V1, FieldsV1(gs, typeName) + (FP_BODY_V1 + BodyV1(b)));
    FieldsUnique(fs, BodyV1(a), gs, BodyV1(b), typeName);
    if |fs| > 0 {
      BodyUnique(a, b, |fs|);
    }
  }

  lemma PreimageFromLeft(fields: seq<Field>, rows: seq<Row>, typeName: TypeName)
    requires SupportedRows(rows)
    ensures PreimageV1(fields, typeName, rows) ==
            FP_V1 + (FieldsV1(fields, typeName) + (FP_BODY_V1 + BodyV1(rows)))
  {
    HeaderFromLeft(fields, typeName);
    Associative(FP_V1 + FieldsV1(fields, typeName), FP_BODY_V1, BodyV1(rows));
    Associative(FP_V1, FieldsV1(fields, typeName), FP_BODY_V1 + BodyV1(rows));
  }

  /** Under a hash without a collision on the two preimages, so do equal fingerprints. */
  lemma FingerprintV1Determines(fs: seq<Field>, a: seq<Row>, gs: seq<Field>, b: seq<Row>, typeName: TypeName,
                                hash: HashFunction)
    requires SupportedRows(a) && SupportedRows(b)
    requires (forall r | r in a :: |r| == |fs|) && (forall r | r in b :: |r| == |gs|)
    requires |PreimageV1(fs, typeName, a)| < U64
    requires CollisionFree(hash, {PreimageV1(fs, typeName, a), PreimageV1(gs, typeName, b)})
    requires hash(PreimageV1(fs, typeName, a)) == hash(PreimageV1(gs, typeName, b))
    ensures |fs| == |gs| && (|fs| > 0 ==> a == b)
    ensures forall i | 0 <= i < |fs| ::
              fs[i].name == gs[i].name && typeName(fs[i].dataType) == typeName(gs[i].dataType) &&
                fs[i].nullable == gs[i].nullable
  {
    PreimageV1Determines(fs, a, gs, b, typeName);
  }

  /** One nullable Boolean column `a` and one true cell, byte by byte. */
  lemma PreimageV1Example(f: Field, typeName: TypeName)
    requires f.name == [97] && f.nullable && typeName(f.dataType) == [66, 111, 111, 108, 101, 97, 110]
    ensures SupportedRows([[Boolean(true)]])
    ensures PreimageV1([f], typeName, [[Boolean(true)]]) ==
            [112, 102, 45, 102, 112, 45, 118, 49, 0] +
              ([112, 102, 45, 115, 99, 104, 101, 109, 97, 45, 102, 105, 101, 108, 100, 45, 118, 49, 0] +
                 ([1, 0, 0, 0, 0, 0, 0, 0] + [97]) + ([7, 0, 0, 0, 0, 0, 0, 0] + [66, 111, 111, 108, 101, 97, 110]) +
                   [1]) +
              [112, 102, 45, 102, 112, 45, 98, 111, 100, 121, 45, 118, 49, 0] +
              ([112, 102, 45, 99, 101, 108, 108, 45, 118, 49, 0] + [0, 0, 0, 0, 0, 0, 0, 0] +
                 ([2, 0, 0, 0, 0, 0, 0, 0] + [18, 1]))
  {
    var row: Row := [Boolean(true)];
    HeaderExample(f, typeName);
    CellExample();
    var rows: seq<Row> := [row];
    assert row[..0] == [] && rows[..0] == [] && row in rows;
    assert [] + CellV1(0, Boolean(true)) == CellV1(0, Boolean(true));
    assert [] + RowV1(row) == RowV1(row);
  }

  lemma HeaderExample(f: Field, typeName: TypeName)
    requires f.name == [97] && f.nullable && typeName(f.dataType) == [66, 111, 111, 108, 101, 97, 110]
    ensures HeaderV1([f], typeName) == [112, 102, 45, 102, 112, 45, 118, 49, 0] +
              ([112, 102, 45, 115, 99, 104, 101, 109, 97, 45, 102, 105, 101, 108, 100, 45, 118, 49, 0] +
                 ([1, 0, 0, 0, 0, 0, 0, 0] + [97]) + ([7, 0, 0, 0, 0, 0, 0, 0] + [66, 111, 111, 108, 101, 97, 110]) +
                   [1])
  {
    assert [f][..0] == [];
    NamesExample();
  }

  lemma NamesExample()
    ensures LenPrefixed([97]) == [1, 0, 0, 0, 0, 0, 0, 0] + [97]
    ensures LenPrefixed([66, 111, 111, 108, 101, 97, 110]) ==
            [7, 0, 0, 0, 0, 0, 0, 0] + [66, 111, 111, 108, 101, 97, 110]
  {
    ShortPrefix([97]);
    ShortPrefix([66, 111, 111, 108, 101, 97, 110]);
  }

  lemma CellExample()
    ensures CellV1(0, Boolean(true)) == [112, 102, 45, 99, 101, 108, 108, 45, 118, 49, 0] + [0, 0, 0, 0, 0, 0, 0, 0] +
              ([2, 0, 0, 0, 0, 0, 0, 0] + [18, 1])
  {
    Le64Bytes(0);
    ShortPrefix(Encode(Boolean(true)));
  }
}
