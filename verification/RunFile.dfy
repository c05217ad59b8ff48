/**
 The sorted-run file: header, payload framing, the writers and the bounded cursor that reads
 records back one at a time.
 */
module RunFile {
  import opened Arithmetic
  import opened Bytes
  import opened Sorting
  import opened Records

  const MAGIC: seq<byte> := [80, 70, 82, 85, 78, 48, 48, 49]  // "PFRUN001"
  const VERSION: nat := 1
  const HEADER_BYTES: nat := 60
  const MAX_RECORD_BYTES: nat := 64 * 1024 * 1024
  const VERIFY_BUFFER_BYTES: nat := 4 * 1024

  /** `i64::to_le_bytes`: two's complement. */
  function SignedWord(i: i64): nat { if i < 0 then i + U64 else i }

  function WordSigned(w: nat): i64
    requires w < U64
  {
    if w < U64 / 2 then w else w - U64
  }

  /** One record as the writers lay it out. */
  function RecordBytes(r: Record): seq<byte> {
    match r.value
    case Signed(i) => Le64(SignedWord(i)) + Le64(r.row)
    case Unsigned(u) => Le64(u) + Le64(r.row)
    case FloatBits(bits) => Le64(bits) + Le64(r.row)
    case ByteString(bytes) => Le32(|bytes|) + (bytes + Le64(r.row))
  }

  function ValueBytes(v: OwnedValue): nat {
    match v
    case ByteString(bytes) => |bytes|
    case _ => 8
  }

  /** Byte strings are framed by a u32, so longer ones never reach a run. */
  predicate Framable(r: Record) { r.value.ByteString? ==> |r.value.bytes| < U32 }

  /** The reader's own bound on one byte value. */
  predicate Readable(r: Record) { r.value.ByteString? ==> |r.value.bytes| <= MAX_RECORD_BYTES }

  ghost predicate AllReadable(s: seq<Record>) { forall r | r in s :: Readable(r) }

  function Payload(s: seq<Record>): seq<byte> {
    if s == [] then [] else RecordBytes(s[0]) + Payload(s[1..])
  }

  lemma {:induction false} PayloadSnoc(s: seq<Record>, r: Record)
    ensures Payload(s + [r]) == Payload(s) + RecordBytes(r)
  {
    if s == [] {
      assert [] + [r] == [r] && [r][1..] == [];
    } else {
      PayloadSnoc(s[1..], r);
      assert (s + [r])[1..] == s[1..] + [r];
      Associative(RecordBytes(s[0]), Payload(s[1..]), RecordBytes(r));
    }
  }

  datatype RunMeta = RunMeta(file: seq<byte>, kind: ValueKind, records: nat, payloadBytes: nat,
                             maxRecordBytes: nat, checksum: Digest)

  function Header(kind: ValueKind, records: nat, payloadBytes: nat, checksum: Digest): (h: seq<byte>)
    ensures |h| == HEADER_BYTES
  {
    MAGIC + Le16(VERSION) + [KindTag(kind), 0] + Le64(records) + Le64(payloadBytes) + checksum
  }

  ghost predicate OfKind(s: seq<Record>, kind: ValueKind) {
    forall r | r in s :: KindOf(r.value) == kind && Framable(r)
  }

  /** `run` is the file a writer produces for the ascending records `s`. */
  ghost predicate Stores(run: RunMeta, s: seq<Record>, hash: HashFunction) {
    && OfKind(s, run.kind) && Ascending(s)
    && run.records == |s| < U64 && run.payloadBytes == |Payload(s)| < U64
    && run.checksum == hash(Payload(s))
    && run.file == Header(run.kind, |s|, |Payload(s)|, run.checksum) + Payload(s)
  }

  // ----- decoding one record ------------------------------------------------------------------

  /** `RunCursor::next` after the exhaustion test, on the unread part of the payload. */
  function ReadRecord(kind: ValueKind, input: seq<byte>): (r: Parsed<Record>)
    ensures r.Parsed? ==> KindOf(r.value.value) == kind && Readable(r.value)
    ensures r.Parsed? ==> input == RecordBytes(r.value) + r.rest
  {
    if kind.BytesKind? then
      match ReadLe32(input)
      case Malformed => Malformed
      case Parsed(length, body) =>
        if length > MAX_RECORD_BYTES || length > |body| - 8 then Malformed
        else ReadRow(ByteString(body[..length]), Le32(length) + body[..length], body[length..], input)
    else
      match ReadLe64(input)
      case Malformed => Malformed
      case Parsed(word, body) =>
        var value :=
          match kind
          case I64 => Signed(WordSigned(word))
          case U64Kind => Unsigned(word)
          case F64 => FloatBits(word);
        ReadRow(value, Le64(word), body, input)
  }

  /** The row number that closes a record whose value was encoded as `head`. */
  function ReadRow(value: OwnedValue, ghost head: seq<byte>, body: seq<byte>,
                   ghost input: seq<byte>): (r: Parsed<Record>)
    requires input == head + body
    requires forall row: u64 :: RecordBytes(Record(value, row)) == head + Le64(row)
    ensures r.Parsed? ==> r.value.value == value && input == RecordBytes(r.value) + r.rest
    ensures r == match ReadLe64(body) case Malformed => Malformed case Parsed(row, rest) =>
            Parsed(Record(value, row), rest)
  {
    match ReadLe64(body)
    case Malformed => Malformed
    case Parsed(row, rest) =>
      Associative(head, Le64(row), rest);
      Parsed(Record(value, row), rest)
  }

  /** What was written is what is read, unless the value is longer than the reader accepts. */
  lemma ReadRecordOf(r: Record, rest: seq<byte>)
    requires Framable(r)
    ensures ReadRecord(KindOf(r.value), RecordBytes(r) + rest)
            == if Readable(r) then Parsed(r, rest) else Malformed
  {
    var input := RecordBytes(r) + rest;
    ReadLe64Of(r.row, rest);
    match r.value
    case Signed(i) => ReadWord(SignedWord(i), Le64(r.row), rest);
    case Unsigned(u) => ReadWord(u, Le64(r.row), rest);
    case FloatBits(bits) => ReadWord(bits, Le64(r.row), rest);
    case ByteString(bytes) =>
      var body := bytes + Le64(r.row) + rest;
      Associative(Le32(|bytes|), bytes + Le64(r.row), rest);
      ReadLe32Of(|bytes|, body);
      Associative(bytes, Le64(r.row), rest);
      assert body[..|bytes|] == bytes && body[|bytes|..] == Le64(r.row) + rest;
  }

  lemma ReadWord(w: nat, row: seq<byte>, rest: seq<byte>)
    requires w < U64
    ensures ReadLe64(Le64(w) + row + rest) == Parsed(w, row + rest)
  {
    Associative(Le64(w), row, rest);
    ReadLe64Of(w, row + rest);
  }

  // ----- writing ------------------------------------------------------------------------------

  /** `write_fixed` and `write_bytes`: size the payload, then write header and records in order. */
  method WriteRun(kind: ValueKind, s: seq<Record>, hash: HashFunction) returns (r: Result<RunMeta>)
    requires OfKind(s, kind) && Ascending(s)
    ensures r.Success? ==> Stores(r.value, s, hash) && r.value.kind == kind && Longest(r.value.maxRecordBytes, s, kind)
    ensures r.Failure? && r.error.Corrupt? ==> |s| >= U64 || HEADER_BYTES + |Payload(s)| >= U64
  {
    var payload, longest := EncodeAll(kind, s);
    if |s| >= U64 || HEADER_BYTES + |payload| >= U64 {
      return Failure(Corrupt);
    }
    var reserved: bool := *;
    if !reserved {
      return Failure(Limit);
    }
    var checksum := hash(payload);
    r := Success(RunMeta(Header(kind, |s|, |payload|, checksum) + payload, kind, |s|, |payload|, longest, checksum));
  }

  /** n is the length of the longest value; fixed-width values all take eight bytes. */
  ghost predicate Longest(n: nat, s: seq<Record>, kind: ValueKind) {
    && (forall r | r in s :: ValueBytes(r.value) <= n)
    && (n == (if kind.BytesKind? then 0 else 8) || exists r :: r in s && ValueBytes(r.value) == n)
  }

  lemma LongestStep(n: nat, s: seq<Record>, i: nat, kind: ValueKind)
    requires i < |s| && OfKind(s, kind) && Longest(n, s[..i], kind)
    ensures Longest(Larger(n, ValueBytes(s[i].value)), s[..i + 1], kind)
  {
    TakeOneMore([], s, i);
    var init, more := s[..i], s[..i + 1];
    assert forall r | r in more :: r in init || r == s[i];
    assert s[i] in more && forall r | r in init :: r in more;
  }

  lemma PayloadStep(s: seq<Record>, i: nat)
    requires i < |s|
    ensures Payload(s[..i + 1]) == Payload(s[..i]) + RecordBytes(s[i])
  {
    PayloadSnoc(s[..i], s[i]);
    TakeOneMore([], s, i);
  }

  /** The records in order, and the longest value among them. */
  method EncodeAll(kind: ValueKind, s: seq<Record>) returns (payload: seq<byte>, longest: nat)
    requires OfKind(s, kind)
    ensures payload == Payload(s) && Longest(longest, s, kind)
  {
    payload, longest := [], if kind.BytesKind? then 0 else 8;
    for i := 0 to |s|
      invariant payload == Payload(s[..i]) && Longest(longest, s[..i], kind)
    {
      LongestStep(longest, s, i, kind);
      payload := payload + RecordBytes(s[i]);
      longest := Larger(longest, ValueBytes(s[i].value));
      PayloadStep(s, i);
    }
    assert s[..|s|] == s;
  }

  // ----- reading ------------------------------------------------------------------------------

  /** `verify_payload`: rehash the payload a buffer at a time. */
  method VerifyPayload(run: RunMeta, hash: HashFunction) returns (r: Result<()>)
    ensures r.Success? ==>
            |run.file| == HEADER_BYTES + run.payloadBytes && hash(run.file[HEADER_BYTES..]) == run.checksum
    ensures r.Failure? && r.error.Corrupt? ==>
              |run.file| != HEADER_BYTES + run.payloadBytes || hash(run.file[HEADER_BYTES..]) != run.checksum
  {
    if |run.file| != HEADER_BYTES + run.payloadBytes {
      return Failure(Corrupt);
    }
    var remaining: nat, offset: nat, absorbed := run.payloadBytes, HEADER_BYTES, [];
    while remaining != 0
      invariant offset + remaining == |run.file| && HEADER_BYTES <= offset
      invariant absorbed == run.file[HEADER_BYTES..offset]
    {
      var cancelled: bool := *;
      if cancelled {
        return Failure(Limit);
      }
      var length := if remaining < VERIFY_BUFFER_BYTES then remaining else VERIFY_BUFFER_BYTES;
      absorbed := absorbed + run.file[offset..offset + length];
      offset, remaining := offset + length, remaining - length;
    }
    assert run.file[HEADER_BYTES..offset] == run.file[HEADER_BYTES..];
    if hash(absorbed) != run.checksum {
      return Failure(Corrupt);
    }
    r := Success(());
  }

  /** `RunCursor`: the unread bytes of one run and how many records they still hold. */
  datatype RunCursor = RunCursor(kind: ValueKind, reader: seq<byte>, remaining: nat, payloadRemaining: nat) {

    /** Exactly `s` is left to read. */
    ghost predicate Holds(s: seq<Record>) {
      OfKind(s, kind) && remaining == |s| && reader == Payload(s) && payloadRemaining == |reader|
    }

    /** `RunCursor::next`, with the cursor it leaves behind. */
    function Next(): (r: (Result<Option<Record>>, RunCursor)) {
      if remaining == 0 then
        (if payloadRemaining != 0 || reader != [] then Failure(Corrupt) else Success(None), this)
      else
        match ReadRecord(kind, reader)
        case Malformed => (Failure(Corrupt), this)
        case Parsed(record, rest) =>
          (Success(Some(record)), RunCursor(kind, rest, remaining - 1, |rest|))
    }
  }

  /** A cursor over `s` returns the records of `s` in order, then reports the end. */
  lemma NextOf(cursor: RunCursor, s: seq<Record>)
    requires cursor.Holds(s)
    ensures s == [] ==> cursor.Next() == (Success(None), cursor)
    ensures s != [] && Readable(s[0]) ==> cursor.Next().0 == Success(Some(s[0])) && cursor.Next().1.Holds(s[1..])
    ensures s != [] && !Readable(s[0]) ==> cursor.Next().0 == Failure(Corrupt)
  {
    if s != [] {
      assert s[0] in s;
      ReadRecordOf(s[0], Payload(s[1..]));
    }
  }

  /** Reading a cursor to its end. */
  function Drain(cursor: RunCursor): (r: Result<seq<Record>>)
    decreases cursor.remaining
  {
    match cursor.Next()
    case (Failure(e), _) => Failure(e)
    case (Success(None), _) => Success([])
    case (Success(Some(record)), after) =>
      if after.remaining >= cursor.remaining then Failure(Corrupt)
      else
        match Drain(after)
        case Failure(e) => Failure(e)
        case Success(others) => Success([record] + others)
  }

  lemma AllReadableStep(s: seq<Record>)
    ensures s != [] ==> s == [s[0]] + s[1..] && (AllReadable(s) <==> Readable(s[0]) && AllReadable(s[1..]))
  {
    if s != [] {
      assert forall r | r in s :: r == s[0] || r in s[1..];
    }
  }

  /** Draining a run written from `s` yields exactly `s`, unless a value is too long to read. */
  lemma {:induction false} DrainOfWritten(cursor: RunCursor, s: seq<Record>)
    requires cursor.Holds(s)
    ensures Drain(cursor) == if AllReadable(s) then Success(s) else Failure(Corrupt)
    decreases |s|
  {
    NextOf(cursor, s);
    AllReadableStep(s);
    if s != [] && Readable(s[0]) {
      DrainOfWritten(cursor.Next().1, s[1..]);
    }
  }

  /** For any bytes at all: what drains without error is exactly what its records encode to. */
  lemma {:induction false} DrainedIsEncoded(cursor: RunCursor)
    requires |cursor.reader| == cursor.payloadRemaining && Drain(cursor).Success?
    ensures cursor.Holds(Drain(cursor).value) && AllReadable(Drain(cursor).value)
    decreases cursor.remaining
  {
    if cursor.remaining > 0 {
      DrainedIsEncoded(cursor.Next().1);
      var s := Drain(cursor).value;
      assert s[1..] == Drain(cursor.Next().1).value;
      FramableRecord(s[0]);
    }
  }

  lemma FramableRecord(r: Record)
    requires Readable(r)
    ensures Framable(r)
  {
  }

  /** `RunCursor::open`: every header field must match what was recorded at creation. */
  method OpenRun(run: RunMeta, ghost s: seq<Record>, ghost hash: HashFunction) returns (r: Result<RunCursor>)
    ensures r.Success? ==> |run.file| == HEADER_BYTES + run.payloadBytes
    ensures r.Success? ==> r.value == RunCursor(run.kind, run.file[HEADER_BYTES..], run.records, run.payloadBytes)
    ensures r.Failure? ==> r.error.Corrupt?
    ensures Stores(run, s, hash) ==> r.Success? && r.value.Holds(s)
  {
    if |run.file| != HEADER_BYTES + run.payloadBytes {
      return Failure(Corrupt);
    }
    if Stores(run, s, hash) {
      HeaderFields(run.kind, |s|, |Payload(s)|, run.checksum, Payload(s));
    }
    var file := run.file;
    if file[..8] != MAGIC || file[8..10] != Le16(VERSION) {
      return Failure(Corrupt);
    }
    var kind := KindOfTag(file[10]);
    if kind.None? {
      return Failure(Corrupt);
    }
    if kind.value != run.kind || LeValue(file[12..20]) != run.records
       || LeValue(file[20..28]) != run.payloadBytes || file[28..60] != run.checksum {
      return Failure(Corrupt);
    }
    r := Success(RunCursor(kind.value, file[HEADER_BYTES..], run.records, run.payloadBytes));
  }

  lemma HeaderFields(kind: ValueKind, records: nat, payloadBytes: nat, checksum: Digest, payload: seq<byte>)
    requires records < U64 && payloadBytes < U64
    ensures var file := Header(kind, records, payloadBytes, checksum) + payload;
            && file[..8] == MAGIC && file[8..10] == Le16(VERSION) && KindOfTag(file[10]) == Some(kind)
            && LeValue(file[12..20]) == records && LeValue(file[20..28]) == payloadBytes
            && file[28..60] == checksum && file[60..] == payload
  {
    Le64RoundTrip(records);
    Le64RoundTrip(payloadBytes);
    var file := Header(kind, records, payloadBytes, checksum) + payload;
    assert file[12..20] == Le64(records);
    assert file[20..28] == Le64(payloadBytes);
  }

  // ----- the file in plain terms -----------------------------------------------------------------------

  /** A record: its value as a word or behind its 32-bit length, then its row. */
  lemma RecordLayout(r: Record)
    ensures r.value.Signed? ==>
              RecordBytes(r) == Le64(if r.value.i >= 0 then r.value.i else r.value.i + 0x1_0000_0000_0000_0000) +
                Le64(r.row)
    ensures r.value.Unsigned? ==> RecordBytes(r) == Le64(r.value.u) + Le64(r.row)
    ensures r.value.FloatBits? ==> RecordBytes(r) == Le64(r.value.bits) + Le64(r.row)
    ensures r.value.ByteString? ==> RecordBytes(r) == Le32(|r.value.bytes|) + (r.value.bytes + Le64(r.row))
  {
  }

  lemma HeaderLayout(kind: ValueKind, records: nat, payloadBytes: nat, checksum: Digest)
    ensures var tag: byte := match kind case I64 => 1 case U64Kind => 2 case F64 => 3 case BytesKind => 4;
            Header(kind, records, payloadBytes, checksum) ==
            [80, 70, 82, 85, 78, 48, 48, 49] + [1, 0] + [tag, 0] + Le64(records) + Le64(payloadBytes) + checksum
  {
    Le32Bytes(1);
  }

  /** A stored run: its header with the counts and checksum of the payload, then its records one after another. */
  lemma StoredFile(run: RunMeta, s: seq<Record>, hash: HashFunction)
    requires Stores(run, s, hash)
    ensures run.file == Header(run.kind, |s|, |Payload(s)|, hash(Payload(s))) + Payload(s)
    ensures s != [] ==> Payload(s) == RecordBytes(s[0]) + Payload(s[1..])
    ensures forall r | r in s ::
              match run.kind
              case I64 => r.value.Signed?
              case U64Kind => r.value.Unsigned?
              case F64 => r.value.FloatBits?
              case BytesKind => r.value.ByteString?
  {
  }

  /** A byte value is read back up to 64 MiB, and framed below 4 GiB. */
  lemma ReadableMeans(r: Record)
    ensures Readable(r) <==> !r.value.ByteString? || |r.value.bytes| <= 67_108_864
    ensures Framable(r) <==> !r.value.ByteString? || |r.value.bytes| < 4_294_967_296
  {
  }
}
