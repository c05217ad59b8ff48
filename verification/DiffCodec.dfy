/**
 The partition files of a keyed diff: the record codec, the writer with its reserved scratch buffer,
 and the reader that accepts exactly what re-encodes to itself.
 */
module DiffCodec {
  import opened Bytes
  import opened Records

  const MAGIC: seq<byte> := [80, 70, 80, 65, 82, 84, 48, 50]  // "PFPART02"
  const VERSION: nat := 2
  const HEADER_BYTES: nat := 92
  const NULL_MARKER: nat := U64 - 1

  datatype Limits = Limits(maxRecordBytes: nat, maxColumns: nat)

  /** One row: its display key as UTF-8 bytes, one optional encoding per compared column, and its hash. */
  datatype RowEntry = RowEntry(displayKey: seq<byte>, values: seq<Option<seq<byte>>>, hash: Digest)

  datatype DiffRecord = DiffRecord(key: seq<byte>, entry: RowEntry)

  /** Which byte strings are valid UTF-8; left abstract. */
  type Utf8 = seq<byte> -> bool

  // ----- encoding ------------------------------------------------------------------------------------

  function ValueBytes(v: Option<seq<byte>>): (r: seq<byte>)
    ensures |r| == 8 + if v.Some? then |v.value| else 0
  {
    if v.None? then Le64(NULL_MARKER) else LenPrefixed(v.value)
  }

  function ValuesBytes(vs: seq<Option<seq<byte>>>): seq<byte> {
    if vs == [] then [] else ValueBytes(vs[0]) + ValuesBytes(vs[1..])
  }

  function Tail(entry: RowEntry): seq<byte> { entry.hash + (Le32(|entry.values|) + ValuesBytes(entry.values)) }

  function RecordBytes(r: DiffRecord): seq<byte> {
    LenPrefixed(r.key) + (LenPrefixed(r.entry.displayKey) + Tail(r.entry))
  }

  lemma {:induction false} ValuesSnoc(vs: seq<Option<seq<byte>>>, v: Option<seq<byte>>)
    ensures ValuesBytes(vs + [v]) == ValuesBytes(vs) + ValueBytes(v)
  {
    if vs == [] {
      assert [v][1..] == [];
    } else {
      assert (vs + [v])[1..] == vs[1..] + [v];
      ValuesSnoc(vs[1..], v);
      Associative(ValueBytes(vs[0]), ValuesBytes(vs[1..]), ValueBytes(v));
    }
  }

  /** A frame that fits 64 bits, so no length meets the null marker, and a column count that fits 32 bits. */
  predicate Encodable(r: DiffRecord) { |RecordBytes(r)| + 8 < U64 && |r.entry.values| < U32 }

  lemma {:induction false} ValueFits(vs: seq<Option<seq<byte>>>, i: nat)
    requires i < |vs|
    ensures |ValueBytes(vs[i])| <= |ValuesBytes(vs)|
  {
    if i > 0 {
      ValueFits(vs[1..], i - 1);
    }
  }

  /** `encoded_record_bytes`: the exact length in advance, unless it overflows 64 bits. */
  method EncodedRecordBytes(r: DiffRecord) returns (bytes: Option<nat>)
    ensures bytes == if |RecordBytes(r)| < U64 then Some(|RecordBytes(r)|) else None
  {
    var total: nat := 8 + |r.key| + 8 + |r.entry.displayKey| + 32 + 4;
    if total >= U64 {
      return None;
    }
    for i := 0 to |r.entry.values|
      invariant total == 52 + |r.key| + |r.entry.displayKey| + |ValuesBytes(r.entry.values[..i])| < U64
    {
      assert r.entry.values[..i + 1] == r.entry.values[..i] + [r.entry.values[i]];
      ValuesSnoc(r.entry.values[..i], r.entry.values[i]);
      total := total + |ValueBytes(r.entry.values[i])|;
      if total >= U64 {
        PrefixShorter(r.entry.values, i + 1);
        return None;
      }
    }
    assert r.entry.values[..|r.entry.values|] == r.entry.values;
    bytes := Some(total);
  }

  lemma {:induction false} PrefixShorter(vs: seq<Option<seq<byte>>>, i: nat)
    requires i <= |vs|
    ensures |ValuesBytes(vs[..i])| <= |ValuesBytes(vs)|
  {
    if i > 0 {
      assert vs[..i][1..] == vs[1..][..i - 1];
      PrefixShorter(vs[1..], i - 1);
    }
  }

  // ----- decoding one record -------------------------------------------------------------------------

  function DecodeBytesWithLength(length: nat, input: seq<byte>, limit: nat): (r: Parsed<seq<byte>>)
    ensures r.Parsed? ==> input == r.value + r.rest && |r.value| == length <= limit
  {
    if length > limit then Malformed else ReadExact(length, input)
  }

  function DecodeBytes(input: seq<byte>, limit: nat): (r: Parsed<seq<byte>>)
    ensures r.Parsed? ==> input == LenPrefixed(r.value) + r.rest && |r.value| <= limit
  {
    match ReadLe64(input)
    case Malformed => Malformed
    case Parsed(n, body) => DecodeBytesWithLength(n, body, limit)
  }

  lemma DecodeBytesOf(b: seq<byte>, rest: seq<byte>, limit: nat)
    requires |b| < U64 && |b| <= limit
    ensures DecodeBytes(LenPrefixed(b) + rest, limit) == Parsed(b, rest)
  {
    Associative(Le64(|b|), b, rest);
    ReadLe64Of(|b|, b + rest);
    ReadExactOf(b, rest);
  }

  function DecodeValue(input: seq<byte>, limit: nat): (r: Parsed<Option<seq<byte>>>)
    ensures r.Parsed? ==> input == ValueBytes(r.value) + r.rest
  {
    match ReadLe64(input)
    case Malformed => Malformed
    case Parsed(n, body) =>
      if n == NULL_MARKER then Parsed(None, body)
      else
        match DecodeBytesWithLength(n, body, limit)
        case Malformed => Malformed
        case Parsed(b, rest) =>
          Associative(Le64(n), b, rest);
          Parsed(Some(b), rest)
  }

  lemma DecodeValueOf(v: Option<seq<byte>>, rest: seq<byte>, limit: nat)
    requires v.Some? ==> |v.value| < NULL_MARKER && |v.value| <= limit
    ensures DecodeValue(ValueBytes(v) + rest, limit) == Parsed(v, rest)
  {
    if v.None? {
      ReadLe64Of(NULL_MARKER, rest);
    } else {
      Associative(Le64(|v.value|), v.value, rest);
      ReadLe64Of(|v.value|, v.value + rest);
      ReadExactOf(v.value, rest);
    }
  }

  function DecodeValues(count: nat, input: seq<byte>, limit: nat): (r: Parsed<seq<Option<seq<byte>>>>)
    ensures r.Parsed? ==> |r.value| == count && input == ValuesBytes(r.value) + r.rest
  {
    if count == 0 then Parsed([], input)
    else
      match DecodeValue(input, limit)
      case Malformed => Malformed
      case Parsed(v, body) =>
        match DecodeValues(count - 1, body, limit)
        case Malformed => Malformed
        case Parsed(vs, rest) =>
          assert ([v] + vs)[1..] == vs;
          Associative(ValueBytes(v), ValuesBytes(vs), rest);
          Parsed([v] + vs, rest)
  }

  lemma {:induction false} DecodeValuesOf(vs: seq<Option<seq<byte>>>, rest: seq<byte>, limit: nat)
    requires forall v | v in vs :: v.Some? ==> |v.value| < NULL_MARKER && |v.value| <= limit
    ensures DecodeValues(|vs|, ValuesBytes(vs) + rest, limit) == Parsed(vs, rest)
    decreases |vs|
  {
    if vs == [] {
      assert [] + rest == rest;
    } else {
      Associative(ValueBytes(vs[0]), ValuesBytes(vs[1..]), rest);
      DecodeValueOf(vs[0], ValuesBytes(vs[1..]) + rest, limit);
      DecodeValuesOf(vs[1..], rest, limit);
      assert vs == [vs[0]] + vs[1..];
    }
  }

  /** Hash, column count and values. */
  function DecodeTail(key: seq<byte>, displayKey: seq<byte>, input: seq<byte>, limits: Limits): (r: Parsed<DiffRecord>)
    ensures r.Parsed? ==>
            r.value.key == key && r.value.entry.displayKey == displayKey && input == Tail(r.value.entry) + r.rest
    ensures r.Parsed? ==> |r.value.entry.values| <= limits.maxColumns && |r.value.entry.values| < U32
  {
    match ReadExact(32, input)
    case Malformed => Malformed
    case Parsed(hash, body) =>
      match ReadLe32(body)
      case Malformed => Malformed
      case Parsed(count, more) =>
        if count > limits.maxColumns then Malformed
        else
          match DecodeValues(count, more, limits.maxRecordBytes)
          case Malformed => Malformed
          case Parsed(vs, rest) =>
            Associative(Le32(count), ValuesBytes(vs), rest);
            Associative(hash, Le32(count) + ValuesBytes(vs), rest);
            Parsed(DiffRecord(key, RowEntry(displayKey, vs, hash)), rest)
  }

  function DecodeRecord(encoded: seq<byte>, limits: Limits, utf8: Utf8): (r: Result<DiffRecord>)
    ensures r.Success? ==> encoded == RecordBytes(r.value) && utf8(r.value.entry.displayKey)
    ensures r.Success? ==> |r.value.entry.values| <= limits.maxColumns && |r.value.entry.values| < U32
  {
    match DecodeBytes(encoded, limits.maxRecordBytes)
    case Malformed => Failure(Corrupt)
    case Parsed(key, afterKey) =>
      match DecodeBytes(afterKey, limits.maxRecordBytes)
      case Malformed => Failure(Corrupt)
      case Parsed(displayKey, afterDisplay) =>
        if !utf8(displayKey) then Failure(Corrupt)
        else
          match DecodeTail(key, displayKey, afterDisplay, limits)
          case Malformed => Failure(Corrupt)
          case Parsed(record, rest) =>
            if rest != [] then Failure(Corrupt)
            else
              assert Tail(record.entry) + [] == Tail(record.entry);
              Success(record)
  }

  /** What the reader's limits admit. */
  predicate Admitted(r: DiffRecord, limits: Limits, utf8: Utf8) {
    && Encodable(r) && |RecordBytes(r)| <= limits.maxRecordBytes
    && |r.entry.values| <= limits.maxColumns && utf8(r.entry.displayKey)
  }

  lemma DecodeTailOf(r: DiffRecord, limits: Limits, utf8: Utf8)
    requires Admitted(r, limits, utf8)
    ensures DecodeTail(r.key, r.entry.displayKey, Tail(r.entry), limits) == Parsed(r, [])
  {
    var e := r.entry;
    ReadExactOf(e.hash, Le32(|e.values|) + ValuesBytes(e.values));
    ReadLe32Of(|e.values|, ValuesBytes(e.values));
    forall v | v in e.values ensures v.Some? ==> |v.value| < NULL_MARKER && |v.value| <= limits.maxRecordBytes {
      var i :| 0 <= i < |e.values| && e.values[i] == v;
      ValueFits(e.values, i);
    }
    DecodeValuesOf(e.values, [], limits.maxRecordBytes);
    assert ValuesBytes(e.values) + [] == ValuesBytes(e.values);
  }

  lemma DecodeRecordOf(r: DiffRecord, limits: Limits, utf8: Utf8)
    requires Admitted(r, limits, utf8)
    ensures DecodeRecord(RecordBytes(r), limits, utf8) == Success(r)
  {
    var afterDisplay := Tail(r.entry);
    DecodeBytesOf(r.key, LenPrefixed(r.entry.displayKey) + afterDisplay, limits.maxRecordBytes);
    DecodeBytesOf(r.entry.displayKey, afterDisplay, limits.maxRecordBytes);
    DecodeTailOf(r, limits, utf8);
  }

  // ----- files ---------------------------------------------------------------------------------------

  function Framed(r: DiffRecord): seq<byte> { LenPrefixed(RecordBytes(r)) }

  function Payload(rs: seq<DiffRecord>): seq<byte> {
    if rs == [] then [] else Framed(rs[0]) + Payload(rs[1..])
  }

  lemma {:induction false} PayloadSnoc(rs: seq<DiffRecord>, r: DiffRecord)
    ensures Payload(rs + [r]) == Payload(rs) + Framed(r)
  {
    if rs == [] {
      assert [] + [r] == [r] && [r][1..] == [];
    } else {
      assert (rs + [r])[1..] == rs[1..] + [r];
      PayloadSnoc(rs[1..], r);
      Associative(Framed(rs[0]), Payload(rs[1..]), Framed(r));
    }
  }

  datatype Header = Header(schemaDigest: Digest, records: nat, payloadBytes: nat, checksum: Digest)

  function HeaderBytes(h: Header): (b: seq<byte>)
    ensures |b| == HEADER_BYTES
  {
    MAGIC + (Le16(VERSION) + (Le16(HEADER_BYTES) + (h.schemaDigest + (Le64(h.records) +
      (Le64(h.payloadBytes) + h.checksum)))))
  }

  /** The file for a sequence of records. */
  function FileOf(rs: seq<DiffRecord>, schemaDigest: Digest, hash: HashFunction): seq<byte> {
    HeaderBytes(Header(schemaDigest, |rs|, |Payload(rs)|, hash(Payload(rs)))) + Payload(rs)
  }

  function ReadLe16(input: seq<byte>): (r: Parsed<nat>)
    ensures r.Parsed? ==> input == Le16(r.value) + r.rest
  {
    if |input| < 2 then Malformed
    else
      LeOfLeValue(input[..2]);
      Parsed(LeValue(input[..2]), input[2..])
  }

  lemma ReadLe16Of(v: nat, rest: seq<byte>)
    requires v < 0x1_0000
    ensures ReadLe16(Le16(v) + rest) == Parsed(v, rest)
  {
    LeValueOfLe(2, v);
    Pow256Values();
    assert (Le16(v) + rest)[..2] == Le16(v);
  }

  function ReadHeader(input: seq<byte>): (r: Parsed<Header>)
    ensures r.Parsed? ==> input == HeaderBytes(r.value) + r.rest && r.value.records < U64 && r.value.payloadBytes < U64
  {
    match ReadExact(8, input)
    case Malformed => Malformed
    case Parsed(magic, a) =>
      if magic != MAGIC then Malformed
      else
        match ReadLe16(a)
        case Malformed => Malformed
        case Parsed(version, b) =>
          if version != VERSION then Malformed
          else
            match ReadLe16(b)
            case Malformed => Malformed
            case Parsed(length, c) => if length != HEADER_BYTES then Malformed else ReadCounts(input, a, b, c)
  }

  function ReadCounts(ghost input: seq<byte>, ghost a: seq<byte>, ghost b: seq<byte>, c: seq<byte>): (r: Parsed<Header>)
    requires input == MAGIC + a && a == Le16(VERSION) + b && b == Le16(HEADER_BYTES) + c
    ensures r.Parsed? ==> input == HeaderBytes(r.value) + r.rest && r.value.records < U64 && r.value.payloadBytes < U64
    ensures r == ReadFields(c)
  {
    var r := ReadFields(c);
    if r.Malformed? then Malformed
    else
      Associative(Le16(HEADER_BYTES), FieldBytes(r.value), r.rest);
      Associative(Le16(VERSION), Le16(HEADER_BYTES) + FieldBytes(r.value), r.rest);
      Associative(MAGIC, Le16(VERSION) + (Le16(HEADER_BYTES) + FieldBytes(r.value)), r.rest);
      r
  }

  function FieldBytes(h: Header): seq<byte> { h.schemaDigest + (Le64(h.records) + (Le64(h.payloadBytes) + h.checksum)) }

  function ReadFields(c: seq<byte>): (r: Parsed<Header>)
    ensures r.Parsed? ==> c == FieldBytes(r.value) + r.rest && r.value.records < U64 && r.value.payloadBytes < U64
  {
    match ReadExact(32, c)
    case Malformed => Malformed
    case Parsed(schemaDigest, d) =>
      match ReadLe64(d)
      case Malformed => Malformed
      case Parsed(records, e) =>
        match ReadLe64(e)
        case Malformed => Malformed
        case Parsed(payloadBytes, f) =>
          match ReadExact(32, f)
          case Malformed => Malformed
          case Parsed(checksum, rest) =>
            Associative(Le64(payloadBytes), checksum, rest);
            Associative(Le64(records), Le64(payloadBytes) + checksum, rest);
            Associative(schemaDigest, Le64(records) + (Le64(payloadBytes) + checksum), rest);
            Parsed(Header(schemaDigest, records, payloadBytes, checksum), rest)
  }

  lemma ReadFieldsOf(h: Header, rest: seq<byte>)
    requires h.records < U64 && h.payloadBytes < U64
    ensures ReadFields(FieldBytes(h) + rest) == Parsed(h, rest)
  {
    var f := h.checksum + rest;
    var e := Le64(h.payloadBytes) + f;
    var d := Le64(h.records) + e;
    Associative(Le64(h.payloadBytes), h.checksum, rest);
    Associative(Le64(h.records), Le64(h.payloadBytes) + h.checksum, rest);
    Associative(h.schemaDigest, Le64(h.records) + (Le64(h.payloadBytes) + h.checksum), rest);
    ReadExactOf(h.schemaDigest, d);
    ReadLe64Of(h.records, e);
    ReadLe64Of(h.payloadBytes, f);
    ReadExactOf(h.checksum, rest);
  }

  lemma ReadHeaderOf(h: Header, rest: seq<byte>)
    requires h.records < U64 && h.payloadBytes < U64
    ensures ReadHeader(HeaderBytes(h) + rest) == Parsed(h, rest)
  {
    var c := FieldBytes(h) + rest;
    var b := Le16(HEADER_BYTES) + c;
    var a := Le16(VERSION) + b;
    Associative(Le16(HEADER_BYTES), FieldBytes(h), rest);
    Associative(Le16(VERSION), Le16(HEADER_BYTES) + FieldBytes(h), rest);
    Associative(MAGIC, Le16(VERSION) + (Le16(HEADER_BYTES) + FieldBytes(h)), rest);
    ReadExactOf(MAGIC, a);
    ReadLe16Of(VERSION, b);
    ReadLe16Of(HEADER_BYTES, c);
    ReadFieldsOf(h, rest);
  }

  // ----- the formats in plain terms --------------------------------------------------------------------

  lemma NullBytes()
    ensures ValueBytes(None) == [255, 255, 255, 255, 255, 255, 255, 255]
  {
    Le64Bytes(U64 - 1);
  }

  /** A record: key, display key, row hash, value count, then the values. */
  lemma RecordLayout(r: DiffRecord)
    ensures RecordBytes(r) ==
            (Le64(|r.key|) + r.key) + ((Le64(|r.entry.displayKey|) + r.entry.displayKey) + (r.entry.hash +
              (Le32(|r.entry.values|) + ValuesBytes(r.entry.values))))
  {
  }

  /** A value stands behind its length, a missing one is eight times 255. */
  lemma ValuesLayout(v: Option<seq<byte>>, vs: seq<Option<seq<byte>>>)
    ensures ValuesBytes([]) == []
    ensures v.Some? ==> ValuesBytes([v] + vs) == (Le64(|v.value|) + v.value) + ValuesBytes(vs)
    ensures v.None? ==> ValuesBytes([v] + vs) == [255, 255, 255, 255, 255, 255, 255, 255] + ValuesBytes(vs)
  {
    NullBytes();
    assert ([v] + vs)[1..] == vs;
  }

  lemma HeaderLayout(h: Header)
    ensures HeaderBytes(h) ==
            [80, 70, 80, 65, 82, 84, 48, 50] + ([2, 0] + ([92, 0] + (h.schemaDigest + (Le64(h.records) +
              (Le64(h.payloadBytes) + h.checksum)))))
  {
    Le32Bytes(2);
    Le32Bytes(92);
  }

  /** A file: its header with the counts and checksum of the payload, then each record behind its length. */
  lemma FileLayout(rs: seq<DiffRecord>, schemaDigest: Digest, hash: HashFunction)
    ensures FileOf(rs, schemaDigest, hash) ==
            HeaderBytes(Header(schemaDigest, |rs|, |Payload(rs)|, hash(Payload(rs)))) + Payload(rs)
    ensures rs != [] ==> Payload(rs) == (Le64(|RecordBytes(rs[0])|) + RecordBytes(rs[0])) + Payload(rs[1..])
  {
  }
}
