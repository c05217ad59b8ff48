/**
 The canonical byte form of one Arrow cell, the simple recursive encoder that defines it, and a
 decoder showing that the form is self-delimiting and loses nothing.
 */
module Canonical {
  import opened Bytes

  datatype Attempt<+T> = Success(value: T) | Unsupported

  /** Fixed-width Arrow scalars. Floats are carried by their bit pattern, as raw bytes. */
  datatype Primitive =
    | Int8 | Int16 | Int32 | Int64 | UInt8 | UInt16 | UInt32 | UInt64 | Float32 | Float64
    | Date32 | Date64
    | TimestampSecond | TimestampMillisecond | TimestampMicrosecond | TimestampNanosecond
    | Decimal128

  datatype TextKind = Utf8 | LargeUtf8 | Utf8View | Binary | LargeBinary | BinaryView

  datatype SequenceKind = List | LargeList | FixedSizeList | Map

  /** One cell. `Foreign` stands for a non-null value of an Arrow type the engine cannot encode. */
  datatype Value =
    | Null
    | Scalar(p: Primitive, raw: seq<byte>)
    | Boolean(b: bool)
    | Text(text: TextKind, bytes: seq<byte>)
    | Sequence(kind: SequenceKind, elements: seq<Value>)
    | Struct(fields: seq<Value>)
    | Foreign

  /** What the leading tag byte of an encoded cell announces. */
  datatype Header =
    | NullHeader | ScalarHeader(p: Primitive) | BooleanHeader | TextHeader(text: TextKind)
    | SequenceHeader(kind: SequenceKind) | StructHeader | UnknownHeader

  function Tag(h: Header): byte {
    match h
    case NullHeader => 0
    case ScalarHeader(p) => PrimitiveTag(p)
    case BooleanHeader => 18
    case TextHeader(k) =>
      (match k
       case Utf8 => 19 case LargeUtf8 => 20 case Utf8View => 28
       case Binary => 21 case LargeBinary => 22 case BinaryView => 29)
    case SequenceHeader(k) =>
      (match k
       case List => 23 case LargeList => 24 case FixedSizeList => 25 case Map => 27)
    case StructHeader => 26
    case UnknownHeader => 255
  }

  function PrimitiveTag(p: Primitive): byte {
    match p
    case Int8 => 1 case Int16 => 2 case Int32 => 3 case Int64 => 4
    case UInt8 => 5 case UInt16 => 6 case UInt32 => 7 case UInt64 => 8
    case Float32 => 9 case Float64 => 10 case Date32 => 11 case Date64 => 12
    case TimestampSecond => 13 case TimestampMillisecond => 14
    case TimestampMicrosecond => 15 case TimestampNanosecond => 16
    case Decimal128 => 17
  }

  function Width(p: Primitive): nat {
    match p
    case Int8 => 1 case UInt8 => 1
    case Int16 => 2 case UInt16 => 2
    case Int32 => 4 case UInt32 => 4 case Float32 => 4 case Date32 => 4
    case Decimal128 => 16
    case _ => 8
  }

  predicate Supported(v: Value) {
    match v
    case Scalar(p, raw) => |raw| == Width(p)
    case Sequence(_, elements) => forall e | e in elements :: Supported(e)
    case Struct(fields) => forall f | f in fields :: Supported(f)
    case Foreign => false
    case _ => true
  }

  type Row = seq<Value>

  predicate InRange(columns: seq<nat>, width: nat) { forall i | 0 <= i < |columns| :: columns[i] < width }

  /** The cells of a row at the given columns. */
  function Pick(row: Row, columns: seq<nat>): (r: seq<Value>)
    requires InRange(columns, |row|)
    ensures |r| == |columns|
  {
    seq(|columns|, i requires 0 <= i < |columns| => row[columns[i]])
  }

  function Bit(b: bool): byte { if b then 1 else 0 }

  /** The bytes `canonical_value_bytes` returns for a supported cell. */
  ghost function Encode(v: Value): (r: seq<byte>)
    requires Supported(v)
    ensures |r| > 0
    decreases v
  {
    match v
    case Null => [Tag(NullHeader)]
    case Scalar(p, raw) => [Tag(ScalarHeader(p))] + raw
    case Boolean(b) => [Tag(BooleanHeader), Bit(b)]
    case Text(k, bytes) => [Tag(TextHeader(k))] + LenPrefixed(bytes)
    case Sequence(k, elements) => [Tag(SequenceHeader(k))] + Le64(|elements|) + EncodeAll(elements)
    case Struct(fields) => [Tag(StructHeader)] + Le64(|fields|) + EncodeAll(fields)
  }

  ghost function EncodeAll(vs: seq<Value>): (r: seq<byte>)
    requires forall v | v in vs :: Supported(v)
    ensures |r| >= |vs|
    decreases vs
  {
    if vs == [] then [] else LenPrefixed(Encode(vs[0])) + EncodeAll(vs[1..])
  }

  lemma EncodeAllCons(v: Value, vs: seq<Value>)
    requires Supported(v) && forall w | w in vs :: Supported(w)
    ensures forall w | w in [v] + vs :: Supported(w)
    ensures EncodeAll([v] + vs) == LenPrefixed(Encode(v)) + EncodeAll(vs)
  {
    assert ([v] + vs)[1..] == vs;
  }

  lemma EncodeAllConsThen(v: Value, element: seq<byte>, vs: seq<Value>, body: seq<byte>,
                          rest: seq<byte>)
    requires Supported(v) && element == Encode(v) + []
    requires (forall w | w in vs :: Supported(w)) && body == EncodeAll(vs) + rest
    ensures forall w | w in [v] + vs :: Supported(w)
    ensures LenPrefixed(element) + body == EncodeAll([v] + vs) + rest
  {
    EncodeAllCons(v, vs);
    assert element == Encode(v);
    assert LenPrefixed(element) + (EncodeAll(vs) + rest) == (LenPrefixed(element) + EncodeAll(vs)) + rest;
  }

  lemma {:induction false} EncodeAllSnoc(vs: seq<Value>, w: Value)
    requires Supported(w) && forall v | v in vs :: Supported(v)
    ensures forall v | v in vs + [w] :: Supported(v)
    ensures EncodeAll(vs + [w]) == EncodeAll(vs) + LenPrefixed(Encode(w))
  {
    if vs == [] {
      EncodeAllCons(w, []);
      assert [] + [w] == [w] + [];
    } else {
      var first := LenPrefixed(Encode(vs[0]));
      EncodeAllSnoc(vs[1..], w);
      assert (vs + [w])[1..] == vs[1..] + [w];
      assert vs + [w] == [vs[0]] + (vs[1..] + [w]);
      Associative(first, EncodeAll(vs[1..]), LenPrefixed(Encode(w)));
    }
  }

  lemma EncodeAllSnocThen(prefix: seq<byte>, encoded: seq<byte>, vs: seq<Value>, w: Value)
    requires Supported(w) && forall v | v in vs :: Supported(v)
    requires encoded == prefix + EncodeAll(vs)
    ensures forall v | v in vs + [w] :: Supported(v)
    ensures encoded + Le64(|Encode(w)|) + Encode(w) == prefix + EncodeAll(vs + [w])
  {
    EncodeAllSnoc(vs, w);
    Associative(encoded, Le64(|Encode(w)|), Encode(w));
    Associative(prefix, EncodeAll(vs), LenPrefixed(Encode(w)));
  }

  // ----- the simple encoder -------------------------------------------------------------------

  /** `canonical_value_bytes`: fails exactly on cells that hold an unsupported value somewhere. */
  method CanonicalValueBytes(v: Value) returns (r: Attempt<seq<byte>>)
    requires Typed(v)
    ensures r.Success? <==> Supported(v)
    ensures r.Success? ==> r.value == Encode(v)
    decreases v, 0
  {
    match v
    case Null => r := Success([Tag(NullHeader)]);
    case Scalar(p, raw) => r := Success([Tag(ScalarHeader(p))] + raw);
    case Boolean(b) => r := Success([Tag(BooleanHeader), Bit(b)]);
    case Text(k, bytes) =>
      var tag := Tag(TextHeader(k));
      r := Success([tag] + Le64(|bytes|) + bytes);
      assert [tag] + Le64(|bytes|) + bytes == [tag] + LenPrefixed(bytes);
    case Sequence(k, elements) => r := EncodeChildSequence(Tag(SequenceHeader(k)), elements, v);
    case Struct(fields) => r := EncodeChildSequence(Tag(StructHeader), fields, v);
    case Foreign => r := Unsupported;
  }

  /** `encode_child_sequence`, and the identical loop over the columns of a struct. */
  method EncodeChildSequence(tag: byte, children: seq<Value>, ghost parent: Value)
    returns (r: Attempt<seq<byte>>)
    requires forall c | c in children :: c < parent && Typed(c)
    ensures r.Success? <==> forall c | c in children :: Supported(c)
    ensures r.Success? ==> r.value == [tag] + Le64(|children|) + EncodeAll(children)
    decreases parent, 0, 0
  {
    var encoded := [tag] + Le64(|children|);
    for index := 0 to |children|
      invariant forall c | c in children[..index] :: Supported(c)
      invariant encoded == [tag] + Le64(|children|) + EncodeAll(children[..index])
    {
      assert children[index] in children;
      var element := CanonicalValueBytes(children[index]);
      if element.Unsupported? {
        return Unsupported;
      }
      EncodeAllSnocThen([tag] + Le64(|children|), encoded, children[..index], children[index]);
      assert children[..index + 1] == children[..index] + [children[index]];
      encoded := encoded + Le64(|element.value|) + element.value;
    }
    assert children[..|children|] == children;
    r := Success(encoded);
  }

  /** Every scalar carries as many raw bytes as its Arrow type is wide. */
  predicate Typed(v: Value) {
    match v
    case Scalar(p, raw) => |raw| == Width(p)
    case Sequence(_, elements) => forall e | e in elements :: Typed(e)
    case Struct(fields) => forall f | f in fields :: Typed(f)
    case _ => true
  }

  // ----- cells byte by byte -----------------------------------------------------------------------

  // Nulls, booleans and fixed-width cells: a tag, then the raw bytes.

  lemma NarrowBytes(raw: seq<byte>)
    ensures Encode(Null) == [0] && Encode(Boolean(false)) == [18, 0] && Encode(Boolean(true)) == [18, 1]
    ensures |raw| == 1 ==>
              && Encode(Scalar(Int8, raw)) == [1] + raw && Encode(Scalar(UInt8, raw)) == [5] + raw
    ensures |raw| == 2 ==>
              && Encode(Scalar(Int16, raw)) == [2] + raw && Encode(Scalar(UInt16, raw)) == [6] + raw
    ensures |raw| == 16 ==>
              && Encode(Scalar(Decimal128, raw)) == [17] + raw
  {
  }

  lemma WordBytes(raw: seq<byte>)
    ensures |raw| == 4 ==>
              && Encode(Scalar(Int32, raw)) == [3] + raw && Encode(Scalar(UInt32, raw)) == [7] + raw
              && Encode(Scalar(Float32, raw)) == [9] + raw && Encode(Scalar(Date32, raw)) == [11] + raw
    ensures |raw| == 8 ==>
              && Encode(Scalar(Int64, raw)) == [4] + raw && Encode(Scalar(UInt64, raw)) == [8] + raw
              && Encode(Scalar(Float64, raw)) == [10] + raw && Encode(Scalar(Date64, raw)) == [12] + raw
  {
  }

  lemma TimestampBytes(raw: seq<byte>)
    ensures |raw| == 8 ==>
              && Encode(Scalar(TimestampSecond, raw)) == [13] + raw &&
                Encode(Scalar(TimestampMillisecond, raw)) == [14] + raw
              && Encode(Scalar(TimestampMicrosecond, raw)) == [15] + raw &&
                Encode(Scalar(TimestampNanosecond, raw)) == [16] + raw
  {
  }

  /** Text and binary: a tag, the length, then the bytes. */
  lemma TextBytes(bytes: seq<byte>)
    ensures Encode(Text(Utf8, bytes)) == [19] + (Le64(|bytes|) + bytes)
    ensures Encode(Text(LargeUtf8, bytes)) == [20] + (Le64(|bytes|) + bytes)
    ensures Encode(Text(Utf8View, bytes)) == [28] + (Le64(|bytes|) + bytes)
    ensures Encode(Text(Binary, bytes)) == [21] + (Le64(|bytes|) + bytes)
    ensures Encode(Text(LargeBinary, bytes)) == [22] + (Le64(|bytes|) + bytes)
    ensures Encode(Text(BinaryView, bytes)) == [29] + (Le64(|bytes|) + bytes)
  {
  }

  /** Lists, maps and structs: a tag, the number of children, then the children. */
  lemma SequenceBytes(kind: SequenceKind, vs: seq<Value>)
    requires forall v | v in vs :: Supported(v)
    ensures var tag: byte := match kind case List => 23 case LargeList => 24 case FixedSizeList => 25 case Map => 27;
            Encode(Sequence(kind, vs)) == [tag] + (Le64(|vs|) + EncodeAll(vs))
  {
    TaggedBody(Sequence(kind, vs));
  }

  lemma StructBytes(vs: seq<Value>)
    requires forall v | v in vs :: Supported(v)
    ensures Encode(Struct(vs)) == [26] + (Le64(|vs|) + EncodeAll(vs))
  {
    TaggedBody(Struct(vs));
  }

  /** Children follow one another, each behind its length. */
  lemma ChildrenBytes(v: Value, vs: seq<Value>)
    requires Supported(v) && forall w | w in vs :: Supported(w)
    ensures EncodeAll([]) == [] && forall w | w in [v] + vs :: Supported(w)
    ensures EncodeAll([v] + vs) == (Le64(|Encode(v)|) + Encode(v)) + EncodeAll(vs)
  {
    EncodeAllCons(v, vs);
  }

  // ----- a decoder ----------------------------------------------------------------------------

  function HeaderOfTag(tag: byte): Header {
    if tag == 0 then NullHeader
    else if tag <= 17 then ScalarHeader(PrimitiveOfTag(tag))
    else if tag == 18 then BooleanHeader
    else if tag == 19 then TextHeader(Utf8)
    else if tag == 20 then TextHeader(LargeUtf8)
    else if tag == 21 then TextHeader(Binary)
    else if tag == 22 then TextHeader(LargeBinary)
    else if tag == 23 then SequenceHeader(List)
    else if tag == 24 then SequenceHeader(LargeList)
    else if tag == 25 then SequenceHeader(FixedSizeList)
    else if tag == 26 then StructHeader
    else if tag == 27 then SequenceHeader(Map)
    else if tag == 28 then TextHeader(Utf8View)
    else if tag == 29 then TextHeader(BinaryView)
    else UnknownHeader
  }

  function PrimitiveOfTag(tag: byte): Primitive
    requires 1 <= tag <= 17
  {
    [Int8, Int16, Int32, Int64, UInt8, UInt16, UInt32, UInt64, Float32, Float64, Date32, Date64,
     TimestampSecond, TimestampMillisecond, TimestampMicrosecond, TimestampNanosecond,
     Decimal128][tag - 1]
  }

  /** Every kind of cell has its own tag. */
  lemma HeaderOfTagOf(h: Header)
    requires !h.UnknownHeader?
    ensures HeaderOfTag(Tag(h)) == h
  {
    if h.ScalarHeader? {
      match h.p {
        case Int8 => case Int16 => case Int32 => case Int64 =>
        case UInt8 => case UInt16 => case UInt32 => case UInt64 =>
        case Float32 => case Float64 => case Date32 => case Date64 =>
        case TimestampSecond => case TimestampMillisecond =>
        case TimestampMicrosecond => case TimestampNanosecond => case Decimal128 =>
      }
    }
  }

  lemma TagOfHeaderOf(tag: byte)
    ensures !HeaderOfTag(tag).UnknownHeader? ==> Tag(HeaderOfTag(tag)) == tag
  {
    if 1 <= tag <= 17 {
      assert PrimitiveTag(PrimitiveOfTag(tag)) == tag;
    }
  }

  /** Whatever the decoder accepts is the encoding of the value it returns. */
  function Decode(input: seq<byte>): (r: Parsed<Value>)
    ensures r.Parsed? ==> Supported(r.value) && input == Encode(r.value) + r.rest
    decreases |input|
  {
    if input == [] then Malformed else
    var tag, body := input[0], input[1..];
    assert input == [tag] + body;
    TagOfHeaderOf(tag);
    match HeaderOfTag(tag)
    case NullHeader => Parsed(Null, body)
    case ScalarHeader(p) =>
      (match ReadExact(Width(p), body)
       case Malformed => Malformed
       case Parsed(raw, rest) => Parsed(Scalar(p, raw), rest))
    case BooleanHeader =>
      if body == [] || body[0] > 1 then Malformed
      else
        assert body == [body[0]] + body[1..];
        Parsed(Boolean(body[0] == 1), body[1..])
    case TextHeader(k) =>
      (match ReadLenPrefixed(body)
       case Malformed => Malformed
       case Parsed(bytes, rest) => Parsed(Text(k, bytes), rest))
    case SequenceHeader(k) =>
      (match DecodeChildren(body)
       case Malformed => Malformed
       case Parsed(vs, rest) => Parsed(Sequence(k, vs), rest))
    case StructHeader =>
      (match DecodeChildren(body)
       case Malformed => Malformed
       case Parsed(vs, rest) => Parsed(Struct(vs), rest))
    case UnknownHeader => Malformed
  }

  function DecodeChildren(body: seq<byte>): (r: Parsed<seq<Value>>)
    ensures r.Parsed? ==> forall v | v in r.value :: Supported(v)
    ensures r.Parsed? ==> body == Le64(|r.value|) + EncodeAll(r.value) + r.rest
    decreases |body|, 1
  {
    match ReadLe64(body)
    case Malformed => Malformed
    case Parsed(count, rest) => DecodeAll(count, rest)
  }

  /** Read `count` length-prefixed values, each filling exactly the length it announces. */
  function DecodeAll(count: nat, input: seq<byte>): (r: Parsed<seq<Value>>)
    ensures r.Parsed? ==> |r.value| == count && forall v | v in r.value :: Supported(v)
    ensures r.Parsed? ==> input == EncodeAll(r.value) + r.rest
    decreases |input|, 0
  {
    if count == 0 then Parsed([], input)
    else
      match ReadLenPrefixed(input)
      case Malformed => Malformed
      case Parsed(element, body) =>
        match Decode(element)
        case Malformed => Malformed
        case Parsed(v, leftover) =>
          if leftover != [] then Malformed
          else
            match DecodeAll(count - 1, body)
            case Malformed => Malformed
            case Parsed(vs, rest) =>
              EncodeAllConsThen(v, element, vs, body, rest);
              Parsed([v] + vs, rest)
  }

  lemma DecodeAllStep(count: nat, input: seq<byte>, element: seq<byte>, body: seq<byte>,
                      v: Value, vs: seq<Value>, rest: seq<byte>)
    requires count > 0
    requires ReadLenPrefixed(input) == Parsed(element, body)
    requires Decode(element) == Parsed(v, []) && DecodeAll(count - 1, body) == Parsed(vs, rest)
    ensures DecodeAll(count, input) == Parsed([v] + vs, rest)
  {
  }

  /** Decoding recovers the value and leaves exactly what followed it. */
  lemma {:induction false} DecodeOfEncode(v: Value, rest: seq<byte>)
    requires Supported(v) && |Encode(v)| < U64
    ensures Decode(Encode(v) + rest) == Parsed(v, rest)
    decreases v, 1
  {
    HeaderOfTagOf(HeadOf(v));
    BodyOfEncode(v, rest);
    match v
    case Null =>
    case Scalar(p, raw) => ReadExactOf(raw, rest);
    case Boolean(b) =>
    case Text(k, bytes) => ReadLenPrefixedOf(bytes, rest);
    case Sequence(k, elements) => DecodeChildrenOf(elements, rest);
    case Struct(fields) => DecodeChildrenOf(fields, rest);
  }

  /** What follows the tag. */
  ghost function Body(v: Value): seq<byte>
    requires Supported(v)
  {
    match v
    case Null => []
    case Scalar(p, raw) => raw
    case Boolean(b) => [Bit(b)]
    case Text(k, bytes) => LenPrefixed(bytes)
    case Sequence(k, elements) => Le64(|elements|) + EncodeAll(elements)
    case Struct(fields) => Le64(|fields|) + EncodeAll(fields)
  }

  lemma BodyOfEncode(v: Value, rest: seq<byte>)
    requires Supported(v)
    ensures !HeadOf(v).UnknownHeader? && (Encode(v) + rest)[0] == Tag(HeadOf(v)) &&
            (Encode(v) + rest)[1..] == Body(v) + rest
    ensures v.Boolean? ==> (Body(v) + rest)[1..] == rest
    ensures v.Null? ==> Body(v) + rest == rest
  {
    TaggedBody(v);
    Associative([Tag(HeadOf(v))], Body(v), rest);
  }

  lemma TaggedBody(v: Value)
    requires Supported(v)
    ensures !HeadOf(v).UnknownHeader? && Encode(v) == [Tag(HeadOf(v))] + Body(v)
  {
    match v
    case Sequence(k, elements) => Associative([Tag(HeadOf(v))], Le64(|elements|), EncodeAll(elements));
    case Struct(fields) => Associative([Tag(HeadOf(v))], Le64(|fields|), EncodeAll(fields));
    case _ =>
  }

  function HeadOf(v: Value): Header {
    match v
    case Null => NullHeader
    case Scalar(p, _) => ScalarHeader(p)
    case Boolean(_) => BooleanHeader
    case Text(k, _) => TextHeader(k)
    case Sequence(k, _) => SequenceHeader(k)
    case Struct(_) => StructHeader
    case Foreign => UnknownHeader
  }

  lemma {:induction false} DecodeChildrenOf(vs: seq<Value>, rest: seq<byte>)
    requires forall v | v in vs :: Supported(v)
    requires |EncodeAll(vs)| < U64
    ensures DecodeChildren(Le64(|vs|) + EncodeAll(vs) + rest) == Parsed(vs, rest)
    decreases vs, 1
  {
    assert Le64(|vs|) + EncodeAll(vs) + rest == Le64(|vs|) + (EncodeAll(vs) + rest);
    ReadLe64Of(|vs|, EncodeAll(vs) + rest);
    DecodeAllOfEncodeAll(vs, rest);
  }

  lemma {:induction false} DecodeAllOfEncodeAll(vs: seq<Value>, rest: seq<byte>)
    requires forall v | v in vs :: Supported(v)
    requires |EncodeAll(vs)| < U64
    ensures DecodeAll(|vs|, EncodeAll(vs) + rest) == Parsed(vs, rest)
    decreases vs, 0
  {
    if vs == [] {
      assert EncodeAll(vs) + rest == rest;
    } else {
      var first, others := Encode(vs[0]), EncodeAll(vs[1..]) + rest;
      FirstEncoded(vs, rest);
      ReadLenPrefixedOf(first, others);
      DecodeOfEncode(vs[0], []);
      DecodeAllOfEncodeAll(vs[1..], rest);
      DecodeAllStep(|vs|, EncodeAll(vs) + rest, first, others, vs[0], vs[1..], rest);
    }
  }

  lemma FirstEncoded(vs: seq<Value>, rest: seq<byte>)
    requires vs != [] && forall v | v in vs :: Supported(v)
    requires |EncodeAll(vs)| < U64
    ensures |Encode(vs[0])| < U64 && EncodeAll(vs) + rest == LenPrefixed(Encode(vs[0])) + (EncodeAll(vs[1..]) + rest)
    ensures Encode(vs[0]) + [] == Encode(vs[0]) && [vs[0]] + vs[1..] == vs
  {
    Associative(LenPrefixed(Encode(vs[0])), EncodeAll(vs[1..]), rest);
  }

  /** No encoding is a proper prefix of another, and equal encodings mean equal cells. */
  lemma PrefixFree(v: Value, x: seq<byte>, w: Value, y: seq<byte>)
    requires Supported(v) && Supported(w) && |Encode(v)| < U64 && |Encode(w)| < U64
    requires Encode(v) + x == Encode(w) + y
    ensures v == w && x == y
  {
    DecodeOfEncode(v, x);
    DecodeOfEncode(w, y);
  }

  lemma EncodeInjective(v: Value, w: Value)
    requires Supported(v) && Supported(w) && |Encode(v)| < U64 && |Encode(w)| < U64
    ensures Encode(v) == Encode(w) <==> v == w
  {
    if Encode(v) == Encode(w) {
      PrefixFree(v, [], w, []);
    }
  }
}
