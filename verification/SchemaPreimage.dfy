/**
 The V2 schema preimage and what it pins down: the selected metadata keys and their values, every
 field name, ordinal, nullability flag and nested type.
 */
module SchemaPreimage {
  import opened Bytes
  import opened Canonical
  import opened ValueEncoder
  import opened FingerprintV1

  const SCHEMA_V2: seq<byte> := [112, 102, 45, 115, 99, 104, 101, 109, 97, 45, 118, 50, 0]  // "pf-schema-v2\0"
  const FIELD_V2: seq<byte> := [112, 102, 45, 102, 105, 101, 108, 100, 45, 118, 50, 0]  // "pf-field-v2\0"

  type Metadata = map<seq<byte>, seq<byte>>

  function Lookup(metadata: Metadata, key: seq<byte>): Option<seq<byte>> {
    if key in metadata then Some(metadata[key]) else None
  }

  function OptionalBytes(v: Option<seq<byte>>): seq<byte> {
    match v
    case Some(bytes) => [1] + LenPrefixed(bytes)
    case None => [0]
  }

  function MetadataEntries(metadata: Metadata, keys: seq<seq<byte>>): seq<byte> {
    if keys == [] then []
    else LenPrefixed(keys[0]) + (OptionalBytes(Lookup(metadata, keys[0])) + MetadataEntries(metadata, keys[1..]))
  }

  /** `update_selected_metadata`; `keys` is the sorted list of selected metadata keys. */
  function SelectedMetadata(metadata: Metadata, keys: seq<seq<byte>>): seq<byte> {
    Le64(|keys|) + MetadataEntries(metadata, keys)
  }

  function TypeTag(t: DataType): byte {
    match t
    case Fixed(p) => PrimitiveTag(p)
    case TimestampType(_, _) => 13
    case DecimalType(_, _) => 17
    case BooleanType => 18
    case TextType(k) => Tag(TextHeader(k))
    case ListType(_) => 23
    case LargeListType(_) => 24
    case FixedSizeListType(_, _) => 25
    case StructType(_) => 26
    case MapType(_, _) => 27
    case OtherType(_) => 255
  }

  function TimeUnitTag(unit: TimeUnit): byte {
    match unit
    case Second => 1 case Millisecond => 2 case Microsecond => 3 case Nanosecond => 4
  }

  /** `update_data_type` after its leading tag. `OtherType` never gets here: it is refused. */
  function TypeBody(t: DataType, keys: seq<seq<byte>>): seq<byte>
    decreases t, 0
  {
    match t
    case TimestampType(unit, timezone) => [TimeUnitTag(unit)] + OptionalBytes(timezone)
    case DecimalType(precision, scale) => [precision, scale]
    case ListType(item) => FieldV2(item, 0, keys)
    case LargeListType(item) => FieldV2(item, 0, keys)
    case FixedSizeListType(item, length) => Le32(length) + FieldV2(item, 0, keys)
    case StructType(fields) => Le64(|fields|) + FieldsV2(fields, 0, keys)
    case MapType(item, sorted) => [Bit(sorted)] + FieldV2(item, 0, keys)
    case _ => []
  }

  /** `update_field`. */
  function FieldV2(f: Field, ordinal: nat, keys: seq<seq<byte>>): seq<byte>
    decreases f, 1
  {
    FIELD_V2 + (Le64(ordinal) + (LenPrefixed(f.name) + ([Bit(f.nullable)] +
    (SelectedMetadata(f.metadata, keys) + ([TypeTag(f.dataType)] + TypeBody(f.dataType, keys))))))
  }

  function FieldsV2(fields: seq<Field>, ordinal: nat, keys: seq<seq<byte>>): seq<byte>
    decreases fields, 2
  {
    if fields == [] then []
    else FieldV2(fields[0], ordinal, keys) + FieldsV2(fields[1..], ordinal + 1, keys)
  }

  /** What `fingerprint_schema` hashes. */
  function PreimageOf(schema: Schema, keys: seq<seq<byte>>): seq<byte> {
    SCHEMA_V2 + (SelectedMetadata(schema.metadata, keys) +
    (Le64(|schema.fields|) + FieldsV2(schema.fields, 0, keys)))
  }

  // ----- what the preimage determines ---------------------------------------------------------

  predicate SameMetadata(a: Metadata, b: Metadata, keys: seq<seq<byte>>) {
    forall k | k in keys :: Lookup(a, k) == Lookup(b, k)
  }

  /** Equal up to metadata outside the selected keys, at every depth. */
  predicate SameType(t: DataType, u: DataType, keys: seq<seq<byte>>)
    decreases t
  {
    match (t, u)
    case (ListType(f), ListType(g)) => SameField(f, g, keys)
    case (LargeListType(f), LargeListType(g)) => SameField(f, g, keys)
    case (FixedSizeListType(f, m), FixedSizeListType(g, n)) => m == n && SameField(f, g, keys)
    case (StructType(fs), StructType(gs)) => SameFields(fs, gs, keys)
    case (MapType(f, a), MapType(g, b)) => a == b && SameField(f, g, keys)
    case (_, _) => t == u
  }

  predicate SameField(f: Field, g: Field, keys: seq<seq<byte>>)
    decreases f
  {
    && f.name == g.name && f.nullable == g.nullable
    && SameMetadata(f.metadata, g.metadata, keys) && SameType(f.dataType, g.dataType, keys)
  }

  predicate SameFields(fs: seq<Field>, gs: seq<Field>, keys: seq<seq<byte>>)
    decreases fs
  {
    |fs| == |gs| && forall i | 0 <= i < |fs| :: SameField(fs[i], gs[i], keys)
  }

  predicate Describable(t: DataType)
    decreases t
  {
    match t
    case ListType(f) => Describable(f.dataType)
    case LargeListType(f) => Describable(f.dataType)
    case FixedSizeListType(f, n) => n < U32 && Describable(f.dataType)
    case StructType(fs) => forall f | f in fs :: Describable(f.dataType)
    case MapType(f, _) => Describable(f.dataType)
    case OtherType(_) => false
    case _ => true
  }

  lemma OptionalUnique(a: Option<seq<byte>>, x: seq<byte>, b: Option<seq<byte>>, y: seq<byte>)
    requires |OptionalBytes(a)| < U64 && |OptionalBytes(b)| < U64
    requires OptionalBytes(a) + x == OptionalBytes(b) + y
    ensures a == b && x == y
  {
    assert (OptionalBytes(a) + x)[0] == OptionalBytes(a)[0];
    assert (OptionalBytes(b) + y)[0] == OptionalBytes(b)[0];
    if a.Some? {
      Associative([1], LenPrefixed(a.value), x);
      Associative([1], LenPrefixed(b.value), y);
      SplitEqual([1], LenPrefixed(a.value) + x, [1], LenPrefixed(b.value) + y);
      LenPrefixedUnique(a.value, x, b.value, y);
    } else {
      SplitEqual([0], x, [0], y);
    }
  }

  lemma {:induction false} EntriesUnique(a: Metadata, x: seq<byte>, b: Metadata, y: seq<byte>,
                                         ks: seq<seq<byte>>, ls: seq<seq<byte>>)
    requires |ks| == |ls|
    requires |MetadataEntries(a, ks)| < U64 && |MetadataEntries(b, ls)| < U64
    requires MetadataEntries(a, ks) + x == MetadataEntries(b, ls) + y
    ensures ks == ls && SameMetadata(a, b, ks) && x == y
  {
    if ks == [] {
      assert [] + x == x && [] + y == y;
    } else {
      var va, vb := OptionalBytes(Lookup(a, ks[0])), OptionalBytes(Lookup(b, ls[0]));
      var ra, rb := MetadataEntries(a, ks[1..]), MetadataEntries(b, ls[1..]);
      Associative(LenPrefixed(ks[0]), va + ra, x);
      Associative(LenPrefixed(ls[0]), vb + rb, y);
      LenPrefixedUnique(ks[0], va + ra + x, ls[0], vb + rb + y);
      Associative(va, ra, x);
      Associative(vb, rb, y);
      OptionalUnique(Lookup(a, ks[0]), ra + x, Lookup(b, ls[0]), rb + y);
      EntriesUnique(a, x, b, y, ks[1..], ls[1..]);
      assert ks == [ks[0]] + ks[1..] && ls == [ls[0]] + ls[1..];
    }
  }

  lemma MetadataUnique(a: Metadata, x: seq<byte>, b: Metadata, y: seq<byte>,
                       ks: seq<seq<byte>>, ls: seq<seq<byte>>)
    requires |ks| < U64 && |ls| < U64
    requires |MetadataEntries(a, ks)| < U64 && |MetadataEntries(b, ls)| < U64
    requires SelectedMetadata(a, ks) + x == SelectedMetadata(b, ls) + y
    ensures ks == ls && SameMetadata(a, b, ks) && x == y
  {
    Associative(Le64(|ks|), MetadataEntries(a, ks), x);
    Associative(Le64(|ls|), MetadataEntries(b, ls), y);
    SplitEqual(Le64(|ks|), MetadataEntries(a, ks) + x, Le64(|ls|), MetadataEntries(b, ls) + y);
    Le64RoundTrip(|ks|);
    Le64RoundTrip(|ls|);
    EntriesUnique(a, x, b, y, ks, ls);
  }

  /** Types with the same leading tag are built by the same constructor. */
  lemma SameTag(t: DataType, u: DataType)
    requires TypeTag(t) == TypeTag(u) && !t.OtherType? && !u.OtherType?
    ensures t.Fixed? ==> t == u
    ensures t.TimestampType? <==> u.TimestampType?
    ensures t.DecimalType? <==> u.DecimalType?
    ensures t.BooleanType? <==> u.BooleanType?
    ensures t.TextType? ==> t == u
    ensures t.ListType? <==> u.ListType?
    ensures t.LargeListType? <==> u.LargeListType?
    ensures t.FixedSizeListType? <==> u.FixedSizeListType?
    ensures t.StructType? <==> u.StructType?
    ensures t.MapType? <==> u.MapType?
  {
    if t.Fixed? && u.Fixed? {
      HeaderOfTagOf(ScalarHeader(t.fixed));
      HeaderOfTagOf(ScalarHeader(u.fixed));
    } else if t.TextType? && u.TextType? {
      HeaderOfTagOf(TextHeader(t.text));
      HeaderOfTagOf(TextHeader(u.text));
    }
  }

  lemma {:induction false} TypeUnique(t: DataType, x: seq<byte>, u: DataType, y: seq<byte>, keys: seq<seq<byte>>)
    requires Describable(t) && Describable(u) && |keys| < U64
    requires |TypeBody(t, keys)| < U64 && |TypeBody(u, keys)| < U64
    requires [TypeTag(t)] + TypeBody(t, keys) + x == [TypeTag(u)] + TypeBody(u, keys) + y
    ensures SameType(t, u, keys) && x == y
    decreases t, 1
  {
    Associative([TypeTag(t)], TypeBody(t, keys), x);
    Associative([TypeTag(u)], TypeBody(u, keys), y);
    SplitEqual([TypeTag(t)], TypeBody(t, keys) + x, [TypeTag(u)], TypeBody(u, keys) + y);
    SameTag(t, u);
    TypeBodyUnique(t, x, u, y, keys);
  }

  ghost predicate SameConstructor(t: DataType, u: DataType) {
    match (t, u)
    case (TimestampType(_, _), TimestampType(_, _)) => true
    case (DecimalType(_, _), DecimalType(_, _)) => true
    case (ListType(_), ListType(_)) => true
    case (LargeListType(_), LargeListType(_)) => true
    case (FixedSizeListType(_, _), FixedSizeListType(_, _)) => true
    case (StructType(_), StructType(_)) => true
    case (MapType(_, _), MapType(_, _)) => true
    case (_, _) => t == u
  }

  lemma {:induction false} TypeBodyUnique(t: DataType, x: seq<byte>, u: DataType, y: seq<byte>, keys: seq<seq<byte>>)
    requires Describable(t) && Describable(u) && |keys| < U64 && SameConstructor(t, u)
    requires |TypeBody(t, keys)| < U64 && |TypeBody(u, keys)| < U64
    requires TypeBody(t, keys) + x == TypeBody(u, keys) + y
    ensures SameType(t, u, keys) && x == y
    decreases t, 0
  {
    match (t, u)
    case (TimestampType(a, za), TimestampType(b, zb)) =>
      Associative([TimeUnitTag(a)], OptionalBytes(za), x);
      Associative([TimeUnitTag(b)], OptionalBytes(zb), y);
      SplitEqual([TimeUnitTag(a)], OptionalBytes(za) + x, [TimeUnitTag(b)], OptionalBytes(zb) + y);
      OptionalUnique(za, x, zb, y);
    case (DecimalType(p, s), DecimalType(q, r)) => SplitEqual([p, s], x, [q, r], y);
    case (ListType(f), ListType(g)) => FieldUnique(f, x, g, y, 0, keys);
    case (LargeListType(f), LargeListType(g)) => FieldUnique(f, x, g, y, 0, keys);
    case (FixedSizeListType(f, m), FixedSizeListType(g, n)) =>
      Associative(Le32(m), FieldV2(f, 0, keys), x);
      Associative(Le32(n), FieldV2(g, 0, keys), y);
      SplitEqual(Le32(m), FieldV2(f, 0, keys) + x, Le32(n), FieldV2(g, 0, keys) + y);
      Le32RoundTrip(m);
      Le32RoundTrip(n);
      FieldUnique(f, x, g, y, 0, keys);
    case (StructType(fs), StructType(gs)) => CountedFieldsUnique(fs, x, gs, y, keys);
    case (MapType(f, a), MapType(g, b)) =>
      Associative([Bit(a)], FieldV2(f, 0, keys), x);
      Associative([Bit(b)], FieldV2(g, 0, keys), y);
      SplitEqual([Bit(a)], FieldV2(f, 0, keys) + x, [Bit(b)], FieldV2(g, 0, keys) + y);
      FieldUnique(f, x, g, y, 0, keys);
    case (_, _) => SplitEqual(TypeBody(t, keys), x, TypeBody(u, keys), y);
  }

  lemma {:induction false} FieldUnique(f: Field, x: seq<byte>, g: Field, y: seq<byte>, ordinal: nat,
                                       keys: seq<seq<byte>>)
    requires Describable(f.dataType) && Describable(g.dataType) && |keys| < U64
    requires |FieldV2(f, ordinal, keys)| < U64 && |FieldV2(g, ordinal, keys)| < U64
    requires FieldV2(f, ordinal, keys) + x == FieldV2(g, ordinal, keys) + y
    ensures SameField(f, g, keys) && x == y
    decreases f
  {
    var tf := [TypeTag(f.dataType)] + TypeBody(f.dataType, keys);
    var tg := [TypeTag(g.dataType)] + TypeBody(g.dataType, keys);
    var mf, mg := SelectedMetadata(f.metadata, keys), SelectedMetadata(g.metadata, keys);
    FieldPrefix(f, tf, x, ordinal, keys);
    FieldPrefix(g, tg, y, ordinal, keys);
    var head := FIELD_V2 + Le64(ordinal);
    SplitEqual(head, LenPrefixed(f.name) + ([Bit(f.nullable)] + (mf + (tf + x))),
               head, LenPrefixed(g.name) + ([Bit(g.nullable)] + (mg + (tg + y))));
    LenPrefixedUnique(f.name, [Bit(f.nullable)] + (mf + (tf + x)), g.name, [Bit(g.nullable)] + (mg + (tg + y)));
    SplitEqual([Bit(f.nullable)], mf + (tf + x), [Bit(g.nullable)], mg + (tg + y));
    MetadataUnique(f.metadata, tf + x, g.metadata, tg + y, keys, keys);
    TypeUnique(f.dataType, x, g.dataType, y, keys);
  }

  lemma FieldPrefix(f: Field, t: seq<byte>, x: seq<byte>, ordinal: nat, keys: seq<seq<byte>>)
    requires t == [TypeTag(f.dataType)] + TypeBody(f.dataType, keys)
    ensures var m := SelectedMetadata(f.metadata, keys);
            FieldV2(f, ordinal, keys) + x ==
            FIELD_V2 + Le64(ordinal) + (LenPrefixed(f.name) + ([Bit(f.nullable)] + (m + (t + x))))
  {
    var m := SelectedMetadata(f.metadata, keys);
    var tail := [Bit(f.nullable)] + (m + t);
    Associative(m, t, x);
    Associative([Bit(f.nullable)], m + t, x);
    Associative(LenPrefixed(f.name), tail, x);
    Associative(Le64(ordinal), LenPrefixed(f.name) + tail, x);
    Associative(FIELD_V2, Le64(ordinal) + (LenPrefixed(f.name) + tail), x);
    Associative(FIELD_V2, Le64(ordinal), LenPrefixed(f.name) + tail + x);
  }

  lemma {:induction false} CountedFieldsUnique(fs: seq<Field>, x: seq<byte>, gs: seq<Field>, y: seq<byte>,
                                               keys: seq<seq<byte>>)
    requires (forall f | f in fs :: Describable(f.dataType)) && (forall g | g in gs :: Describable(g.dataType))
    requires |keys| < U64
    requires |FieldsV2(fs, 0, keys)| < U64 && |FieldsV2(gs, 0, keys)| < U64
    requires Le64(|fs|) + FieldsV2(fs, 0, keys) + x == Le64(|gs|) + FieldsV2(gs, 0, keys) + y
    ensures SameFields(fs, gs, keys) && x == y
    decreases fs, 1
  {
    Associative(Le64(|fs|), FieldsV2(fs, 0, keys), x);
    Associative(Le64(|gs|), FieldsV2(gs, 0, keys), y);
    SplitEqual(Le64(|fs|), FieldsV2(fs, 0, keys) + x, Le64(|gs|), FieldsV2(gs, 0, keys) + y);
    FieldsAtLeast(fs, 0, keys);
    FieldsAtLeast(gs, 0, keys);
    Le64RoundTrip(|fs|);
    Le64RoundTrip(|gs|);
    FieldsUnique(fs, x, gs, y, 0, keys);
  }

  lemma {:induction false} FieldsAtLeast(fs: seq<Field>, ordinal: nat, keys: seq<seq<byte>>)
    ensures |FieldsV2(fs, ordinal, keys)| >= |fs|
  {
    if fs != [] {
      FieldsAtLeast(fs[1..], ordinal + 1, keys);
    }
  }

  lemma {:induction false} FieldsUnique(fs: seq<Field>, x: seq<byte>, gs: seq<Field>, y: seq<byte>, ordinal: nat,
                                        keys: seq<seq<byte>>)
    requires (forall f | f in fs :: Describable(f.dataType)) && (forall g | g in gs :: Describable(g.dataType))
    requires |keys| < U64 && |fs| == |gs|
    requires |FieldsV2(fs, ordinal, keys)| < U64 && |FieldsV2(gs, ordinal, keys)| < U64
    requires FieldsV2(fs, ordinal, keys) + x == FieldsV2(gs, ordinal, keys) + y
    ensures SameFields(fs, gs, keys) && x == y
    decreases fs, 0
  {
    if fs == [] {
      assert [] + x == x && [] + y == y;
    } else {
      var rf, rg := FieldsV2(fs[1..], ordinal + 1, keys), FieldsV2(gs[1..], ordinal + 1, keys);
      Associative(FieldV2(fs[0], ordinal, keys), rf, x);
      Associative(FieldV2(gs[0], ordinal, keys), rg, y);
      FieldUnique(fs[0], rf + x, gs[0], rg + y, ordinal, keys);
      FieldsUnique(fs[1..], x, gs[1..], y, ordinal + 1, keys);
      forall i | 0 <= i < |fs| ensures SameField(fs[i], gs[i], keys) {
        if i > 0 {
          assert fs[i] == fs[1..][i - 1] && gs[i] == gs[1..][i - 1];
        }
      }
    }
  }

  /** Equal preimages: same selected keys, same selected metadata, same fields at every depth. */
  lemma PreimageDeterminesSchema(s: Schema, ks: seq<seq<byte>>, r: Schema, ls: seq<seq<byte>>)
    requires (forall f | f in s.fields :: Describable(f.dataType)) && |ks| < U64
    requires (forall f | f in r.fields :: Describable(f.dataType)) && |ls| < U64
    requires |PreimageOf(s, ks)| < U64 && |PreimageOf(r, ls)| < U64
    requires PreimageOf(s, ks) == PreimageOf(r, ls)
    ensures ks == ls && SameMetadata(s.metadata, r.metadata, ks) && SameFields(s.fields, r.fields, ks)
  {
    var fs, fr := Le64(|s.fields|) + FieldsV2(s.fields, 0, ks), Le64(|r.fields|) + FieldsV2(r.fields, 0, ls);
    SplitEqual(SCHEMA_V2, SelectedMetadata(s.metadata, ks) + fs, SCHEMA_V2, SelectedMetadata(r.metadata, ls) + fr);
    MetadataUnique(s.metadata, fs, r.metadata, fr, ks, ls);
    assert fs + [] == fs && fr + [] == fr;
    CountedFieldsUnique(s.fields, [], r.fields, [], ks);
  }

  // ----- the preimage in plain terms -----------------------------------------------------------------

  /** Sameness one level down; with the lemma after it, at every depth. */
  lemma SameTypeMeans(t: DataType, u: DataType, keys: seq<seq<byte>>)
    requires SameType(t, u, keys)
    ensures match t
            case ListType(f) => u.ListType? && SameField(f, u.item, keys)
            case LargeListType(f) => u.LargeListType? && SameField(f, u.item, keys)
            case FixedSizeListType(f, n) => u.FixedSizeListType? && n == u.length && SameField(f, u.item, keys)
            case StructType(fs) =>
              u.StructType? && |fs| == |u.fields| && forall i | 0 <= i < |fs| :: SameField(fs[i], u.fields[i], keys)
            case MapType(f, sorted) => u.MapType? && sorted == u.sorted && SameField(f, u.item, keys)
            case _ => u == t
  {
  }

  lemma SameFieldMeans(f: Field, g: Field, keys: seq<seq<byte>>)
    requires SameField(f, g, keys)
    ensures f.name == g.name && f.nullable == g.nullable && SameType(f.dataType, g.dataType, keys)
    ensures forall k | k in keys ::
              (k in f.metadata <==> k in g.metadata) && (k in f.metadata ==> f.metadata[k] == g.metadata[k])
  {
    forall k | k in keys
      ensures (k in f.metadata <==> k in g.metadata) && (k in f.metadata ==> f.metadata[k] == g.metadata[k])
    {
      assert Lookup(f.metadata, k) == Lookup(g.metadata, k);
    }
  }

  /** Equal preimages: as many columns, and column by column the same name, nullability and selected metadata. */
  lemma PreimageMeans(s: Schema, ks: seq<seq<byte>>, r: Schema, ls: seq<seq<byte>>, i: nat)
    requires (forall f | f in s.fields :: Describable(f.dataType)) && |ks| < U64
    requires (forall f | f in r.fields :: Describable(f.dataType)) && |ls| < U64
    requires |PreimageOf(s, ks)| < U64 && |PreimageOf(r, ls)| < U64 && i < |s.fields|
    requires PreimageOf(s, ks) == PreimageOf(r, ls)
    ensures ks == ls && |s.fields| == |r.fields|
    ensures s.fields[i].name == r.fields[i].name && s.fields[i].nullable == r.fields[i].nullable
    ensures SameType(s.fields[i].dataType, r.fields[i].dataType, ks)
    ensures forall k | k in ks ::
              && (k in s.metadata <==> k in r.metadata) && (k in s.metadata ==> s.metadata[k] == r.metadata[k])
              && (k in s.fields[i].metadata <==> k in r.fields[i].metadata)
              && (k in s.fields[i].metadata ==> s.fields[i].metadata[k] == r.fields[i].metadata[k])
  {
    PreimageDeterminesSchema(s, ks, r, ls);
    SameFieldMeans(s.fields[i], r.fields[i], ks);
    forall k | k in ks
      ensures (k in s.metadata <==> k in r.metadata) && (k in s.metadata ==> s.metadata[k] == r.metadata[k])
    {
      assert Lookup(s.metadata, k) == Lookup(r.metadata, k);
    }
  }

  /** A schema: domain, selected metadata, number of fields, then the fields under their ordinals. */
  lemma SchemaBytes(schema: Schema, f: Field, fields: seq<Field>, ordinal: nat, keys: seq<seq<byte>>)
    ensures PreimageOf(schema, keys) ==
            [112, 102, 45, 115, 99, 104, 101, 109, 97, 45, 118, 50, 0] + (SelectedMetadata(schema.metadata, keys) +
              (Le64(|schema.fields|) + FieldsV2(schema.fields, 0, keys)))
    ensures FieldsV2([], ordinal, keys) == []
    ensures FieldsV2([f] + fields, ordinal, keys) == FieldV2(f, ordinal, keys) + FieldsV2(fields, ordinal + 1, keys)
  {
    assert ([f] + fields)[1..] == fields;
  }

  /** A field: domain, ordinal, name, nullability, selected metadata, type tag and type parameters. */
  lemma FieldBytes(f: Field, ordinal: nat, keys: seq<seq<byte>>)
    ensures FieldV2(f, ordinal, keys) ==
            [112, 102, 45, 102, 105, 101, 108, 100, 45, 118, 50, 0] + (Le64(ordinal) + ((Le64(|f.name|) + f.name) +
              ([if f.nullable then 1 else 0] + (SelectedMetadata(f.metadata, keys) +
                ([TypeTag(f.dataType)] + TypeBody(f.dataType, keys))))))
  {
  }

  /** Selected metadata: their number, then each key behind its length and its value behind a presence byte. */
  lemma MetadataBytes(metadata: Metadata, key: seq<byte>, keys: seq<seq<byte>>)
    ensures SelectedMetadata(metadata, keys) == Le64(|keys|) + MetadataEntries(metadata, keys)
    ensures MetadataEntries(metadata, []) == []
    ensures MetadataEntries(metadata, [key] + keys) ==
            (Le64(|key|) + key) + ((if key in metadata then [1] + (Le64(|metadata[key]|) + metadata[key]) else [0]) +
              MetadataEntries(metadata, keys))
  {
    assert ([key] + keys)[1..] == keys;
  }

  /** The tag and the parameters of every type; scalar and text types have the tags of their cells. */
  lemma TypeBytes(p: PlainPrimitive, k: TextKind, zone: seq<byte>, unit: TimeUnit, precision: byte, scale: byte)
    ensures TypeTag(Fixed(p)) == PrimitiveTag(p) && TypeBody(Fixed(p), []) == []
    ensures TypeTag(TextType(k)) == Tag(TextHeader(k)) && TypeBody(TextType(k), []) == []
    ensures TypeTag(BooleanType) == 18 && TypeBody(BooleanType, []) == []
    ensures TypeTag(DecimalType(precision, scale)) == 17 &&
            TypeBody(DecimalType(precision, scale), []) == [precision, scale]
    ensures var tag: byte := match unit case Second => 1 case Millisecond => 2 case Microsecond => 3 case Nanosecond =>
            4;
            && TypeTag(TimestampType(unit, None)) == TypeTag(TimestampType(unit, Some(zone))) == 13
            && TypeBody(TimestampType(unit, None), []) == [tag] + [0]
            && TypeBody(TimestampType(unit, Some(zone)), []) == [tag] + ([1] + (Le64(|zone|) + zone))
  {
  }

  lemma NestedTypeBytes(f: Field, n: nat, fields: seq<Field>, keys: seq<seq<byte>>)
    ensures TypeTag(ListType(f)) == 23 && TypeBody(ListType(f), keys) == FieldV2(f, 0, keys)
    ensures TypeTag(LargeListType(f)) == 24 && TypeBody(LargeListType(f), keys) == FieldV2(f, 0, keys)
    ensures TypeTag(FixedSizeListType(f, n)) == 25
    ensures TypeBody(FixedSizeListType(f, n), keys) == Le32(n) + FieldV2(f, 0, keys)
    ensures TypeTag(StructType(fields)) == 26
    ensures TypeBody(StructType(fields), keys) == Le64(|fields|) + FieldsV2(fields, 0, keys)
    ensures TypeTag(MapType(f, true)) == 27 && TypeBody(MapType(f, true), keys) == [1] + FieldV2(f, 0, keys)
    ensures TypeTag(MapType(f, false)) == 27 && TypeBody(MapType(f, false), keys) == [0] + FieldV2(f, 0, keys)
  {
  }
}
