/**
 The schema-compiled encoder: built once from an Arrow type, then streaming every cell into a
 reusable buffer or a hasher, with length prefixes patched in after the fact.
 */
module ValueEncoder {
  import opened Bytes
  import opened Canonical

  /** The unparameterised fixed-width types; the others carry a unit or a precision. */
  type PlainPrimitive = p: Primitive |
    !p.TimestampSecond? && !p.TimestampMillisecond? && !p.TimestampMicrosecond?
    && !p.TimestampNanosecond? && !p.Decimal128?
    witness Int8

  datatype TimeUnit = Second | Millisecond | Microsecond | Nanosecond

  /** Arrow types. `Other` is every type the engine has no encoder for. */
  datatype DataType =
    | Fixed(fixed: PlainPrimitive)
    | TimestampType(unit: TimeUnit, timezone: Option<seq<byte>>)
    | DecimalType(precision: byte, scale: byte)
    | BooleanType
    | TextType(text: TextKind)
    | ListType(item: Field)
    | LargeListType(item: Field)
    | FixedSizeListType(item: Field, length: nat)
    | StructType(fields: seq<Field>)
    | MapType(item: Field, sorted: bool)
    | OtherType(name: seq<byte>)

  datatype Field = Field(name: seq<byte>, dataType: DataType, nullable: bool,
                         metadata: map<seq<byte>, seq<byte>>)

  datatype Encoder =
    | ScalarEncoder(p: Primitive)
    | BooleanEncoder
    | TextEncoder(text: TextKind)
    | SequenceEncoder(kind: SequenceKind, child: Encoder)
    | StructEncoder(children: seq<Encoder>)

  function TimestampPrimitive(unit: TimeUnit): Primitive {
    match unit
    case Second => TimestampSecond
    case Millisecond => TimestampMillisecond
    case Microsecond => TimestampMicrosecond
    case Nanosecond => TimestampNanosecond
  }

  /** `ValueEncoder::for_data_type`. */
  function ForDataType(t: DataType): Attempt<Encoder>
    decreases t
  {
    match t
    case Fixed(p) => Success(ScalarEncoder(p))
    case TimestampType(unit, _) => Success(ScalarEncoder(TimestampPrimitive(unit)))
    case DecimalType(_, _) => Success(ScalarEncoder(Decimal128))
    case BooleanType => Success(BooleanEncoder)
    case TextType(k) => Success(TextEncoder(k))
    case ListType(item) => SequenceOf(List, ForDataType(item.dataType))
    case LargeListType(item) => SequenceOf(LargeList, ForDataType(item.dataType))
    case FixedSizeListType(item, _) => SequenceOf(FixedSizeList, ForDataType(item.dataType))
    case StructType(fields) =>
      (match ForFields(fields)
       case Success(children) => Success(StructEncoder(children))
       case Unsupported => Unsupported)
    case MapType(item, _) => SequenceOf(Map, ForDataType(item.dataType))
    case OtherType(_) => Unsupported
  }

  function SequenceOf(kind: SequenceKind, child: Attempt<Encoder>): Attempt<Encoder> {
    match child
    case Success(e) => Success(SequenceEncoder(kind, e))
    case Unsupported => Unsupported
  }

  /** One encoder per field, or a refusal when any field has an unsupported type. */
  function ForFields(fields: seq<Field>): (r: Attempt<seq<Encoder>>)
    ensures r.Success? <==> forall f | f in fields :: ForDataType(f.dataType).Success?
    ensures r.Success? ==> |r.value| == |fields|
    ensures r.Success? ==>
              forall i | 0 <= i < |fields| :: ForDataType(fields[i].dataType) == Success(r.value[i])
    decreases fields
  {
    if fields == [] then Success([])
    else
      assert fields == [fields[0]] + fields[1..];
      match ForDataType(fields[0].dataType)
      case Unsupported => Unsupported
      case Success(first) =>
        match ForFields(fields[1..])
        case Unsupported => Unsupported
        case Success(others) => Success([first] + others)
  }

  /** `v` can occur as a cell of an array of type `t`. Nulls can occur in any array. */
  predicate HasType(v: Value, t: DataType)
    decreases t
  {
    v.Null? ||
    match t
    case Fixed(p) => v.Scalar? && v.p == p && |v.raw| == Width(p)
    case TimestampType(unit, _) => v.Scalar? && v.p == TimestampPrimitive(unit) && |v.raw| == 8
    case DecimalType(_, _) => v.Scalar? && v.p == Decimal128 && |v.raw| == 16
    case BooleanType => v.Boolean?
    case TextType(k) => v.Text? && v.text == k
    case ListType(item) => IsSequence(v, List) && AllHaveType(v.elements, item)
    case LargeListType(item) => IsSequence(v, LargeList) && AllHaveType(v.elements, item)
    case FixedSizeListType(item, length) =>
      IsSequence(v, FixedSizeList) && |v.elements| == length && AllHaveType(v.elements, item)
    case StructType(fields) =>
      && v.Struct? && |v.fields| == |fields|
      && forall i | 0 <= i < |fields| :: HasType(v.fields[i], fields[i].dataType)
    case MapType(item, _) => IsSequence(v, Map) && AllHaveType(v.elements, item)
    case OtherType(_) => v.Foreign?
  }

  predicate IsSequence(v: Value, kind: SequenceKind) { v.Sequence? && v.kind == kind }

  predicate AllHaveType(vs: seq<Value>, item: Field)
    decreases item
  {
    forall i | 0 <= i < |vs| :: HasType(vs[i], item.dataType)
  }

  /** The cell is one the encoder was compiled for, so its downcasts cannot fail. */
  predicate Fits(e: Encoder, v: Value)
    decreases e
  {
    v.Null? ||
    match e
    case ScalarEncoder(p) => v.Scalar? && v.p == p && |v.raw| == Width(p)
    case BooleanEncoder => v.Boolean?
    case TextEncoder(k) => v.Text? && v.text == k
    case SequenceEncoder(kind, child) =>
      IsSequence(v, kind) && forall i | 0 <= i < |v.elements| :: Fits(child, v.elements[i])
    case StructEncoder(children) =>
      && v.Struct? && |v.fields| == |children|
      && forall i | 0 <= i < |children| :: Fits(children[i], v.fields[i])
  }

  lemma {:induction false} FitsIsSupported(e: Encoder, v: Value)
    requires Fits(e, v)
    ensures Supported(v)
    decreases e
  {
    match e
    case SequenceEncoder(kind, child) =>
      if v.Sequence? {
        forall i | 0 <= i < |v.elements| ensures Supported(v.elements[i]) {
          FitsIsSupported(child, v.elements[i]);
        }
      }
    case StructEncoder(children) =>
      if v.Struct? {
        forall i | 0 <= i < |v.fields| ensures Supported(v.fields[i]) {
          FitsIsSupported(children[i], v.fields[i]);
        }
      }
    case _ =>
  }

  /** The encoder compiled for a type accepts every cell of that type. */
  lemma {:induction false} TypedCellFits(v: Value, t: DataType)
    requires HasType(v, t) && ForDataType(t).Success?
    ensures Fits(ForDataType(t).value, v)
    decreases t
  {
    match t
    case ListType(item) => ElementsFit(v, item);
    case LargeListType(item) => ElementsFit(v, item);
    case FixedSizeListType(item, _) => ElementsFit(v, item);
    case MapType(item, _) => ElementsFit(v, item);
    case StructType(fields) =>
      if v.Struct? {
        var children := ForFields(fields).value;
        forall i | 0 <= i < |children| ensures Fits(children[i], v.fields[i]) {
          assert ForDataType(fields[i].dataType) == Success(children[i]);
          TypedCellFits(v.fields[i], fields[i].dataType);
        }
      }
    case _ =>
  }

  lemma {:induction false} ElementsFit(v: Value, item: Field)
    requires v.Sequence? ==> AllHaveType(v.elements, item)
    requires ForDataType(item.dataType).Success?
    ensures v.Sequence? ==>
              forall i | 0 <= i < |v.elements| :: Fits(ForDataType(item.dataType).value, v.elements[i])
    decreases item
  {
    if v.Sequence? {
      forall i | 0 <= i < |v.elements|
        ensures Fits(ForDataType(item.dataType).value, v.elements[i])
      {
        TypedCellFits(v.elements[i], item.dataType);
      }
    }
  }

  // ----- streaming ----------------------------------------------------------------------------

  /** A growable byte vector; also the byte stream a hasher has absorbed so far. */
  class Buffer {
    var bytes: seq<byte>

    constructor ()
      ensures bytes == []
    {
      bytes := [];
    }

    method Extend(more: seq<byte>)
      modifies this
      ensures bytes == old(bytes) + more
    {
      bytes := bytes + more;
    }

    method Clear()
      modifies this
      ensures bytes == []
    {
      bytes := [];
    }

    /** Overwrite `|b|` bytes in place. */
    method Patch(offset: nat, b: seq<byte>)
      requires offset + |b| <= |bytes|
      modifies this
      ensures bytes == old(bytes)[..offset] + b + old(bytes)[offset + |b|..]
    {
      bytes := bytes[..offset] + b + bytes[offset + |b|..];
    }
  }

  /** `write_v1_value`. */
  method WriteV1Value(e: Encoder, v: Value, output: Buffer)
    requires Fits(e, v)
    modifies output
    ensures Supported(v) && output.bytes == old(output.bytes) + Encode(v)
    decreases e, 0
  {
    FitsIsSupported(e, v);
    if v.Null? {
      output.Extend([Tag(NullHeader)]);
      return;
    }
    match e
    case ScalarEncoder(p) =>
      output.Extend([Tag(ScalarHeader(p))]);
      output.Extend(v.raw);
      Associative(old(output.bytes), [Tag(ScalarHeader(p))], v.raw);
    case BooleanEncoder =>
      output.Extend([Tag(BooleanHeader), Bit(v.b)]);
    case TextEncoder(k) =>
      var tag := [Tag(TextHeader(k))];
      output.Extend(tag);
      output.Extend(Le64(|v.bytes|));
      output.Extend(v.bytes);
      Associative(old(output.bytes) + tag, Le64(|v.bytes|), v.bytes);
      Associative(old(output.bytes), tag, LenPrefixed(v.bytes));
    case SequenceEncoder(kind, child) =>
      WriteChildSequence(output, Tag(SequenceHeader(kind)), v.elements, child);
    case StructEncoder(children) =>
      var head := [Tag(StructHeader)] + Le64(|v.fields|);
      output.Extend([Tag(StructHeader)]);
      output.Extend(Le64(|v.fields|));
      Associative(old(output.bytes), [Tag(StructHeader)], Le64(|v.fields|));
      for column := 0 to |children|
        invariant output.bytes == old(output.bytes) + head + EncodeAll(v.fields[..column])
      {
        assert v.fields[column] in v.fields;
        ghost var before := output.bytes;
        WriteLenPrefixed(children[column], v.fields[column], output);
        EncodeAllSnocThen(old(output.bytes) + head, before, v.fields[..column], v.fields[column]);
        Associative(before, Le64(|Encode(v.fields[column])|), Encode(v.fields[column]));
        assert v.fields[..column + 1] == v.fields[..column] + [v.fields[column]];
      }
      assert v.fields[..|children|] == v.fields;
      Associative(old(output.bytes), head, EncodeAll(v.fields));
  }

  /** `write_child_sequence`. */
  method WriteChildSequence(output: Buffer, tag: byte, children: seq<Value>, e: Encoder)
    requires forall i | 0 <= i < |children| :: Fits(e, children[i])
    modifies output
    ensures forall c | c in children :: Supported(c)
    ensures output.bytes == old(output.bytes) + ([tag] + Le64(|children|) + EncodeAll(children))
    decreases e, 2
  {
    var head := [tag] + Le64(|children|);
    output.Extend([tag]);
    output.Extend(Le64(|children|));
    Associative(old(output.bytes), [tag], Le64(|children|));
    for index := 0 to |children|
      invariant forall c | c in children[..index] :: Supported(c)
      invariant output.bytes == old(output.bytes) + head + EncodeAll(children[..index])
    {
      ghost var before := output.bytes;
      WriteLenPrefixed(e, children[index], output);
      EncodeAllSnocThen(old(output.bytes) + head, before, children[..index], children[index]);
      Associative(before, Le64(|Encode(children[index])|), Encode(children[index]));
      assert children[..index + 1] == children[..index] + [children[index]];
    }
    assert children[..|children|] == children;
    Associative(old(output.bytes), head, EncodeAll(children));
  }

  /** `write_len_prefixed`: leave room for the length, write the value, then patch the length in. */
  method WriteLenPrefixed(e: Encoder, v: Value, output: Buffer)
    requires Fits(e, v)
    modifies output
    ensures Supported(v) && output.bytes == old(output.bytes) + LenPrefixed(Encode(v))
    decreases e, 1
  {
    var lengthOffset := |output.bytes|;
    output.Extend(Le64(0));
    var valueOffset := |output.bytes|;
    WriteV1Value(e, v, output);
    var length := |output.bytes| - valueOffset;
    ghost var start, unpatched := old(output.bytes), output.bytes;
    Associative(start, Le64(0), Encode(v));
    assert unpatched[..lengthOffset] == start && unpatched[valueOffset..] == Encode(v);
    output.Patch(lengthOffset, Le64(length));
    Associative(start, Le64(length), Encode(v));
  }

  const CELL_V1: seq<byte> := [112, 102, 45, 99, 101, 108, 108, 45, 118, 49, 0]  // "pf-cell-v1\0"

  /** What `update_hash` feeds for one cell: domain, column ordinal, length-prefixed encoding. */
  ghost function CellV1(column: nat, v: Value): seq<byte>
    requires Supported(v)
  {
    CELL_V1 + Le64(column) + LenPrefixed(Encode(v))
  }

  /** `update_hash`: the cell is encoded on its own, then absorbed. */
  method UpdateHash(hasher: Buffer, column: nat, v: Value) returns (ok: bool)
    requires Typed(v)
    modifies hasher
    ensures ok <==> Supported(v)
    ensures ok ==> hasher.bytes == old(hasher.bytes) + CellV1(column, v)
  {
    hasher.Extend(CELL_V1);
    hasher.Extend(Le64(column));
    var encoded := CanonicalValueBytes(v);
    if encoded.Unsupported? {
      return false;
    }
    hasher.Extend(Le64(|encoded.value|));
    hasher.Extend(encoded.value);
    ok := true;
    CellPieces(old(hasher.bytes), CELL_V1, Le64(column), Le64(|encoded.value|), encoded.value);
  }

  lemma CellPieces(base: seq<byte>, a: seq<byte>, b: seq<byte>, c: seq<byte>, d: seq<byte>)
    ensures base + a + b + c + d == base + (a + b + (c + d))
  {
    Associative(base, a, b);
    Associative(base + (a + b), c, d);
    Associative(base, a + b, c + d);
  }

  /** `update_v1`: scalars, booleans and strings are absorbed directly, the rest via `scratch`. */
  method UpdateV1(e: Encoder, hasher: Buffer, column: nat, v: Value, scratch: Buffer)
    requires Fits(e, v) && hasher != scratch
    modifies hasher, scratch
    ensures Supported(v) && hasher.bytes == old(hasher.bytes) + CellV1(column, v)
  {
    hasher.Extend(CELL_V1);
    hasher.Extend(Le64(column));
    if v.Null? || e.ScalarEncoder? || e.BooleanEncoder? || e.TextEncoder? {
      UpdateDirect(e, hasher, v);
    } else {
      Stage(e, v, scratch);
      hasher.Extend(Le64(|scratch.bytes|));
      hasher.Extend(scratch.bytes);
    }
    CellPieces(old(hasher.bytes), CELL_V1, Le64(column), Le64(|Encode(v)|), Encode(v));
  }

  /** A nested cell is encoded into the scratch buffer first, to learn its length. */
  method Stage(e: Encoder, v: Value, scratch: Buffer)
    requires Fits(e, v)
    modifies scratch
    ensures Supported(v) && scratch.bytes == Encode(v)
  {
    scratch.Clear();
    WriteV1Value(e, v, scratch);
  }

  /** The branches of `update_v1` that absorb a cell without staging it in the scratch buffer. */
  method UpdateDirect(e: Encoder, hasher: Buffer, v: Value)
    requires Fits(e, v) && (v.Null? || e.ScalarEncoder? || e.BooleanEncoder? || e.TextEncoder?)
    modifies hasher
    ensures Supported(v)
    ensures hasher.bytes == old(hasher.bytes) + Le64(|Encode(v)|) + Encode(v)
  {
    FitsIsSupported(e, v);
    if v.Null? {
      hasher.Extend(Le64(1));
      hasher.Extend([Tag(NullHeader)]);
    } else if e.ScalarEncoder? {
      var tag := [Tag(ScalarHeader(e.p))];
      hasher.Extend(Le64(1 + |v.raw|));
      hasher.Extend(tag);
      hasher.Extend(v.raw);
      Associative(old(hasher.bytes) + Le64(1 + |v.raw|), tag, v.raw);
    } else if e.BooleanEncoder? {
      hasher.Extend(Le64(2));
      hasher.Extend([Tag(BooleanHeader), Bit(v.b)]);
    } else {
      var tag := [Tag(TextHeader(e.text))];
      hasher.Extend(Le64(9 + |v.bytes|));
      hasher.Extend(tag);
      hasher.Extend(Le64(|v.bytes|));
      hasher.Extend(v.bytes);
      Associative(old(hasher.bytes) + Le64(9 + |v.bytes|) + tag, Le64(|v.bytes|), v.bytes);
      Associative(old(hasher.bytes) + Le64(9 + |v.bytes|), tag, LenPrefixed(v.bytes));
    }
  }

  // ----- which types are supported ---------------------------------------------------------------------

  /** Every type has an encoder but those the engine does not know, at any depth. */
  lemma SupportedTypes(t: DataType)
    ensures match t
            case ListType(item) => ForDataType(t).Success? <==> ForDataType(item.dataType).Success?
            case LargeListType(item) => ForDataType(t).Success? <==> ForDataType(item.dataType).Success?
            case FixedSizeListType(item, _) => ForDataType(t).Success? <==> ForDataType(item.dataType).Success?
            case MapType(item, _) => ForDataType(t).Success? <==> ForDataType(item.dataType).Success?
            case StructType(fields) =>
              ForDataType(t).Success? <==> forall f | f in fields :: ForDataType(f.dataType).Success?
            case OtherType(_) => ForDataType(t).Unsupported?
            case _ => ForDataType(t).Success?
  {
  }
}
