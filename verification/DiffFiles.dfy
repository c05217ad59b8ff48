/**
 Writing and reading the partition files of a keyed diff, and how far the scratch buffer's memory
 reservation reaches.
 */
module DiffFiles {
  import opened Bytes
  import opened Records
  import opened DiffCodec
  import opened ExactState

  // ----- the scratch buffer --------------------------------------------------------------------------

  /** `Vec::reserve_exact`: room for `additional` bytes beyond the current length, not beyond the capacity. */
  function ReserveExact(length: nat, capacity: nat, additional: nat): nat {
    if capacity - length >= additional then capacity else length + additional
  }

  /** The capacity a record of `required` bytes finds before it is encoded. */
  function CapacityFor(length: nat, capacity: nat, required: nat): nat {
    if required > capacity then ReserveExact(length, capacity, required - capacity) else capacity
  }

  /** The buffer needs no further growth exactly when it was large enough, or full from the record before. */
  lemma ReservationCovers(length: nat, capacity: nat, required: nat)
    requires length <= capacity
    ensures CapacityFor(length, capacity, required) >= required <==> required <= capacity || length == capacity
  {
  }

  function MaxOf(sizes: seq<nat>): nat {
    if sizes == [] then 0
    else
      var m, last := MaxOf(sizes[..|sizes| - 1]), sizes[|sizes| - 1];
      if m < last then last else m
  }

  function LastOf(sizes: seq<nat>): nat { if sizes == [] then 0 else sizes[|sizes| - 1] }

  /** The capacity after encoding records of these sizes, while every reservation covers its record. */
  function CapacityAfter(sizes: seq<nat>): nat {
    if sizes == [] then 0
    else
      var init := sizes[..|sizes| - 1];
      CapacityFor(LastOf(init), CapacityAfter(init), sizes[|sizes| - 1])
  }

  /** What has been charged for the buffer. */
  function ChargedAfter(sizes: seq<nat>): nat {
    if sizes == [] then 0
    else
      var init, required := sizes[..|sizes| - 1], sizes[|sizes| - 1];
      ChargedAfter(init) + if required > CapacityAfter(init) then required - CapacityAfter(init) else 0
  }

  predicate AllCovered(sizes: seq<nat>) {
    sizes != [] ==>
      var init, required := sizes[..|sizes| - 1], sizes[|sizes| - 1];
      AllCovered(init) && CapacityFor(LastOf(init), CapacityAfter(init), required) >= required
  }

  /** Every record larger than all before it directly follows one of the largest so far. */
  predicate GrowsFromFull(sizes: seq<nat>) {
    forall i | 0 <= i < |sizes| :: FitsOrFollowsLargest(sizes[..i], sizes[i])
  }

  predicate FitsOrFollowsLargest(before: seq<nat>, required: nat) {
    required <= MaxOf(before) || LastOf(before) == MaxOf(before)
  }

  lemma {:induction false} MaxMeans(sizes: seq<nat>)
    ensures forall i | 0 <= i < |sizes| :: sizes[i] <= MaxOf(sizes)
    ensures if sizes == [] then MaxOf(sizes) == 0 else MaxOf(sizes) in sizes
    decreases |sizes|
  {
    if sizes != [] {
      var n := |sizes| - 1;
      MaxMeans(sizes[..n]);
      assert sizes == sizes[..n] + [sizes[n]];
    }
  }

  /** Record by record: it is no larger than an earlier one, or the one just before it is the largest so far. */
  lemma GrowsMeans(sizes: seq<nat>)
    ensures GrowsFromFull(sizes) <==>
            forall i | 0 < i < |sizes| ::
              (exists j :: 0 <= j < i && sizes[i] <= sizes[j]) || (forall j | 0 <= j < i :: sizes[j] <= sizes[i - 1])
  {
    forall i | 0 < i < |sizes|
      ensures FitsOrFollowsLargest(sizes[..i], sizes[i]) <==>
              (exists j :: 0 <= j < i && sizes[i] <= sizes[j]) || (forall j | 0 <= j < i :: sizes[j] <= sizes[i - 1])
    {
      FitsMeans(sizes, i);
    }
    assert sizes != [] ==> sizes[..0] == [];
  }

  lemma FitsMeans(sizes: seq<nat>, i: nat)
    requires 0 < i < |sizes|
    ensures FitsOrFollowsLargest(sizes[..i], sizes[i]) <==>
            (exists j :: 0 <= j < i && sizes[i] <= sizes[j]) || (forall j | 0 <= j < i :: sizes[j] <= sizes[i - 1])
  {
    var before := sizes[..i];
    MaxMeans(before);
    var m :| 0 <= m < i && before[m] == MaxOf(before);
    assert forall j | 0 <= j < i :: before[j] == sizes[j];
    if forall j | 0 <= j < i :: sizes[j] <= sizes[i - 1] {
      assert sizes[m] <= sizes[i - 1] == LastOf(before) <= MaxOf(before);
    }
  }

  lemma GrowsSnoc(init: seq<nat>, required: nat)
    ensures GrowsFromFull(init + [required]) <==> GrowsFromFull(init) && FitsOrFollowsLargest(init, required)
  {
    var sizes := init + [required];
    assert sizes[..|init|] == init && sizes[|init|] == required;
    forall i | 0 <= i < |init| ensures sizes[..i] == init[..i] && sizes[i] == init[i] {
    }
    if GrowsFromFull(sizes) {
      assert FitsOrFollowsLargest(sizes[..|init|], sizes[|init|]);
      forall i | 0 <= i < |init| ensures FitsOrFollowsLargest(init[..i], init[i]) {
        assert FitsOrFollowsLargest(sizes[..i], sizes[i]);
      }
    }
  }

  lemma CoveredSnoc(init: seq<nat>, required: nat)
    ensures AllCovered(init + [required]) <==> AllCovered(init) && FitsOrFollowsLargest(init, required)
  {
    assert (init + [required])[..|init|] == init;
    if AllCovered(init) {
      CoveredCapacity(init);
    }
  }

  lemma {:induction false} CoveredCapacity(sizes: seq<nat>)
    requires AllCovered(sizes)
    ensures CapacityAfter(sizes) == ChargedAfter(sizes) == MaxOf(sizes) && LastOf(sizes) <= MaxOf(sizes)
    decreases |sizes|
  {
    if sizes != [] {
      CoveredCapacity(sizes[..|sizes| - 1]);
    }
  }

  /** Over a whole run of records, the reservations cover the buffer exactly on such sequences of sizes. */
  lemma {:induction false} CoverageOfRun(sizes: seq<nat>)
    ensures AllCovered(sizes) <==> GrowsFromFull(sizes)
    decreases |sizes|
  {
    if sizes != [] {
      var init, required := sizes[..|sizes| - 1], sizes[|sizes| - 1];
      assert sizes == init + [required];
      CoverageOfRun(init);
      GrowsSnoc(init, required);
      CoveredSnoc(init, required);
    }
  }

  // ----- writer --------------------------------------------------------------------------------------

  class PartitionWriter {
    const schemaDigest: Digest
    var payload: seq<byte>
    var records: nat
    var payloadBytes: nat
    var hashed: seq<byte>
    var scratch: seq<byte>
    var capacity: nat
    var charged: nat
    ghost var written: seq<DiffRecord>

    ghost predicate Valid()
      reads this
    {
      && payload == hashed == Payload(written) && records == |written| < U64 && payloadBytes == |payload| < U64
      && |scratch| <= capacity
    }

    ghost function ScratchLength(): nat
      reads this
    {
      |scratch|
    }

    constructor (schemaDigest: Digest)
      ensures Valid() && written == [] && this.schemaDigest == schemaDigest && scratch == [] && capacity == charged == 0
    {
      this.schemaDigest := schemaDigest;
      payload, records, payloadBytes, hashed := [], 0, 0, [];
      scratch, capacity, charged, written := [], 0, 0, [];
    }

    /**
     Append one record. `covered` tells whether the reserved capacity held the whole encoding; the
     charge grows by what the record exceeds the old capacity. Unless the account refuses memory, only a
     record past its limit or counters past 64 bits make it fail.
     */
    method WriteRecord(r: DiffRecord, maxRecordBytes: nat)
      returns (result: Result<()>, ghost covered: bool, ghost refused: bool)
      requires Valid()
      modifies this
      ensures result.Failure? && !refused ==>
                || |RecordBytes(r)| > maxRecordBytes || !Encodable(r)
                || |old(written)| + 1 >= U64 || |Payload(old(written) + [r])| >= U64
      ensures result.Success? ==> Valid() && written == old(written) + [r] && scratch == RecordBytes(r)
      ensures result.Success? ==> |RecordBytes(r)| <= maxRecordBytes && Encodable(r)
      ensures result.Success? ==>
              charged == old(charged) + if |RecordBytes(r)| > old(capacity) then |RecordBytes(r)| - old(capacity) else 0
      ensures result.Success? ==> (covered <==> |RecordBytes(r)| <= old(capacity) || |old(scratch)| == old(capacity))
      ensures result.Success? && covered ==> capacity == CapacityFor(|old(scratch)|, old(capacity), |RecordBytes(r)|)
      ensures |RecordBytes(r)| > maxRecordBytes ==>
              result.Failure? && capacity == old(capacity) && charged == old(charged)
    {
      covered, refused := false, false;
      var required := EncodedRecordBytes(r);
      if required.None? {
        result := Failure(Corrupt);
        return;
      }
      if required.value > maxRecordBytes {
        result := Failure(Limit);
        return;
      }
      var granted;
      granted, covered := PrepareScratch(required.value);
      refused := !granted;
      if !granted {
        result := Failure(Limit);
        return;
      }
      if |r.entry.values| >= U32 {
        result := Failure(Corrupt);
        return;
      }
      scratch := EncodeRecord(r);
      if |scratch| > capacity {
        var grown: nat :| grown >= |scratch|;
        capacity := grown;
      }
      if |scratch| + 8 >= U64 {
        result := Failure(Corrupt);
        return;
      }
      granted := Reserve();
      refused := !granted;
      if !granted {
        result := Failure(Limit);
        return;
      }
      result := Append(r);
    }

    /** Length, record, checksum and counters. */
    method Append(r: DiffRecord) returns (result: Result<()>)
      requires Valid() && scratch == RecordBytes(r)
      modifies this`payload, this`hashed, this`records, this`payloadBytes, this`written
      ensures result.Success? ==> Valid() && written == old(written) + [r] && |RecordBytes(r)| + 8 < U64
      ensures result.Failure? ==> |old(written)| + 1 >= U64 || |Payload(old(written) + [r])| >= U64
    {
      var frame := Le64(|scratch|) + scratch;
      PayloadSnoc(written, r);
      payload, hashed := payload + frame, hashed + frame;
      if records + 1 >= U64 || payloadBytes + |frame| >= U64 {
        return Failure(Corrupt);
      }
      records, payloadBytes, written := records + 1, payloadBytes + |frame|, written + [r];
      result := Success(());
    }

    /** Charge what the record exceeds the capacity by, and ask the vector for that much. */
    method PrepareScratch(required: nat) returns (granted: bool, ghost covered: bool)
      requires Valid()
      modifies this`capacity, this`charged
      ensures Valid()
      ensures granted ==> capacity == CapacityFor(|scratch|, old(capacity), required)
      ensures granted ==> charged == old(charged) + if required > old(capacity) then required - old(capacity) else 0
      ensures granted ==> (covered <==> required <= capacity)
      ensures granted ==> (covered <==> required <= old(capacity) || |scratch| == old(capacity))
    {
      ReservationCovers(|scratch|, capacity, required);
      granted := true;
      if required > capacity {
        var additional := required - capacity;
        granted := Reserve();
        if !granted {
          covered := false;
          return;
        }
        capacity, charged := ReserveExact(|scratch|, capacity, additional), charged + additional;
      }
      covered := required <= capacity;
    }

    /** The finished file: header first, rewound over the space left for it. */
    method Finish(hash: HashFunction) returns (file: seq<byte>)
      requires Valid()
      ensures file == FileOf(written, schemaDigest, hash)
    {
      file := HeaderBytes(Header(schemaDigest, records, payloadBytes, hash(hashed))) + payload;
    }
  }

  // ----- the reservations of a whole run -----------------------------------------------------------

  /** What each record needs in the buffer. */
  ghost function Sizes(rs: seq<DiffRecord>): (sizes: seq<nat>)
    ensures |sizes| == |rs|
  {
    seq(|rs|, i requires 0 <= i < |rs| => |RecordBytes(rs[i])|)
  }

  ghost predicate AllTrue(flags: seq<bool>) { forall i | 0 <= i < |flags| :: flags[i] }

  /** The buffer of a writer after `rs`, as long as every reservation covered its record. */
  ghost predicate Reserved(covered: seq<bool>, rs: seq<DiffRecord>, length: nat, capacity: nat, charged: nat) {
    && |covered| == |rs| && (AllTrue(covered) <==> AllCovered(Sizes(rs)))
    && (AllTrue(covered) ==>
          length == LastOf(Sizes(rs)) && capacity == CapacityAfter(Sizes(rs)) && charged == ChargedAfter(Sizes(rs)))
  }

  /** One more record, whose reservation covered it or not as the writer reports. */
  lemma ReservedSnoc(covered: seq<bool>, rs: seq<DiffRecord>, length: nat, capacity: nat, charged: nat,
                     r: DiffRecord, last: bool, capacityNow: nat, chargedNow: nat)
    requires Reserved(covered, rs, length, capacity, charged) && length <= capacity
    requires last <==> |RecordBytes(r)| <= capacity || length == capacity
    requires last ==> capacityNow == CapacityFor(length, capacity, |RecordBytes(r)|)
    requires chargedNow == charged + if |RecordBytes(r)| > capacity then |RecordBytes(r)| - capacity else 0
    ensures Reserved(covered + [last], rs + [r], |RecordBytes(r)|, capacityNow, chargedNow)
  {
    SizesSnoc(rs, r);
    AllTrueSnoc(covered, last);
    RunSnoc(Sizes(rs), |RecordBytes(r)|);
    ReservationCovers(length, capacity, |RecordBytes(r)|);
  }

  lemma SizesSnoc(rs: seq<DiffRecord>, r: DiffRecord)
    ensures Sizes(rs + [r]) == Sizes(rs) + [|RecordBytes(r)|]
  {
  }

  lemma AllTrueSnoc(flags: seq<bool>, last: bool)
    ensures AllTrue(flags + [last]) <==> AllTrue(flags) && last
  {
    assert (flags + [last])[|flags|] == last;
    if AllTrue(flags + [last]) {
      assert forall i | 0 <= i < |flags| :: (flags + [last])[i] == flags[i];
    }
  }

  lemma RunSnoc(sizes: seq<nat>, required: nat)
    ensures LastOf(sizes + [required]) == required
    ensures AllCovered(sizes + [required]) <==>
            AllCovered(sizes) && CapacityFor(LastOf(sizes), CapacityAfter(sizes), required) >= required
    ensures CapacityAfter(sizes + [required]) == CapacityFor(LastOf(sizes), CapacityAfter(sizes), required)
    ensures ChargedAfter(sizes + [required])
            == ChargedAfter(sizes) + if required > CapacityAfter(sizes) then required - CapacityAfter(sizes) else 0
  {
    assert (sizes + [required])[..|sizes|] == sizes;
  }

  /**
   A fresh writer given `rs`, record by record. `covered` collects what `WriteRecord` says of each: all
   reservations cover their records exactly when every new largest record follows one that filled the
   buffer, and then what is charged is what is reserved, and both are the largest record.
   */
  method WriteAll(rs: seq<DiffRecord>, schemaDigest: Digest, maxRecordBytes: nat)
    returns (r: Result<PartitionWriter>, ghost covered: seq<bool>)
    ensures r.Success? ==>
            fresh(r.value) && r.value.Valid() && r.value.written == rs && r.value.schemaDigest == schemaDigest
    ensures r.Success? ==> |covered| == |rs| && (AllTrue(covered) <==> GrowsFromFull(Sizes(rs)))
    ensures r.Success? && AllTrue(covered) ==> r.value.capacity == r.value.charged == MaxOf(Sizes(rs))
  {
    var writer := new PartitionWriter(schemaDigest);
    covered := [];
    for i := 0 to |rs|
      invariant fresh(writer) && writer.Valid() && writer.written == rs[..i]
      invariant Reserved(covered, rs[..i], |writer.scratch|, writer.capacity, writer.charged)
    {
      ghost var length, capacity, charged := |writer.scratch|, writer.capacity, writer.charged;
      var written;
      ghost var last, refused;
      written, last, refused := writer.WriteRecord(rs[i], maxRecordBytes);
      if written.Failure? {
        return Failure(written.error), covered;
      }
      ReservedSnoc(covered, rs[..i], length, capacity, charged, rs[i], last, writer.capacity, writer.charged);
      TakeOneMore([], rs, i);
      covered := covered + [last];
    }
    assert rs[..|rs|] == rs;
    CoverageOfRun(Sizes(rs));
    if AllTrue(covered) {
      CoveredCapacity(Sizes(rs));
    }
    r := Success(writer);
  }

  /** A record with a key of n bytes and nothing else. */
  function KeyOnly(n: nat): DiffRecord { DiffRecord(seq(n, _ => 0), RowEntry([], [], ZERO_DIGEST)) }

  lemma RecordOverhead(r: DiffRecord)
    ensures |RecordBytes(r)| >= 52 + |r.key| + |r.entry.displayKey|
    ensures r.entry.values == [] ==> |RecordBytes(r)| == 52 + |r.key| + |r.entry.displayKey|
  {
  }

  /** A small record between two growing ones: the reserved capacity does not hold the third. */
  method UncoveredExample(schemaDigest: Digest, maxRecordBytes: nat)
    returns (r: Result<PartitionWriter>, ghost covered: seq<bool>, ghost reserved: nat)
    requires maxRecordBytes >= 150
    ensures Sizes([KeyOnly(68), KeyOnly(8), KeyOnly(98)]) == [120, 60, 150] && !GrowsFromFull([120, 60, 150])
    ensures r.Success? ==> covered == [true, true, false] && reserved == 120 && r.value.charged == 150
    ensures r.Success? ==> r.value.Valid() && r.value.written == [KeyOnly(68), KeyOnly(8), KeyOnly(98)]
  {
    ExampleSizes();
    var writer := new PartitionWriter(schemaDigest);
    covered, reserved := [], 0;
    var written;
    ghost var first, second, third;
    written, first := WriteSized(writer, KeyOnly(68), 120, maxRecordBytes);
    if written.Failure? {
      return Failure(written.error), covered, reserved;
    }
    written, second := WriteSized(writer, KeyOnly(8), 60, maxRecordBytes);
    if written.Failure? {
      return Failure(written.error), covered, reserved;
    }
    reserved := CapacityFor(writer.ScratchLength(), writer.capacity, 150);
    written, third := WriteSized(writer, KeyOnly(98), 150, maxRecordBytes);
    if written.Failure? {
      return Failure(written.error), covered, reserved;
    }
    ThreeRecords(KeyOnly(68), KeyOnly(8), KeyOnly(98));
    covered := [first, second, third];
    r := Success(writer);
  }

  /** `WriteRecord` in terms of the size of the record. */
  method WriteSized(writer: PartitionWriter, r: DiffRecord, ghost size: nat, maxRecordBytes: nat)
    returns (result: Result<()>, ghost covered: bool)
    requires writer.Valid() && |RecordBytes(r)| == size
    modifies writer
    ensures result.Success? ==>
            writer.Valid() && writer.written == old(writer.written) + [r] && writer.ScratchLength() == size
    ensures result.Success? ==>
            writer.charged == old(writer.charged) + if size > old(writer.capacity) then size - old(writer.capacity)
              else 0
    ensures result.Success? ==>
            (covered <==> size <= old(writer.capacity) || old(writer.ScratchLength()) == old(writer.capacity))
    ensures result.Success? && covered ==>
            writer.capacity == CapacityFor(old(writer.ScratchLength()), old(writer.capacity), size)
  {
    ghost var refused;
    result, covered, refused := writer.WriteRecord(r, maxRecordBytes);
  }

  lemma ThreeRecords(a: DiffRecord, b: DiffRecord, c: DiffRecord)
    ensures [] + [a] + [b] + [c] == [a, b, c]
  {
  }

  lemma ExampleSizes()
    ensures |RecordBytes(KeyOnly(68))| == 120 && |RecordBytes(KeyOnly(8))| == 60 && |RecordBytes(KeyOnly(98))| == 150
    ensures Sizes([KeyOnly(68), KeyOnly(8), KeyOnly(98)]) == [120, 60, 150] && !GrowsFromFull([120, 60, 150])
  {
    RecordOverhead(KeyOnly(68));
    RecordOverhead(KeyOnly(8));
    RecordOverhead(KeyOnly(98));
    var sizes: seq<nat> := [120, 60, 150];
    assert sizes[..2] == [120, 60] && [120, 60][..1] == [120] && [120][..0] == [];
    assert MaxOf([120]) == 120 && MaxOf([120, 60]) == 120;
    assert !FitsOrFollowsLargest(sizes[..2], sizes[2]);
  }

  /** The encoding loop over scratch. */
  method EncodeRecord(r: DiffRecord) returns (scratch: seq<byte>)
    requires |r.entry.values| < U32
    ensures scratch == RecordBytes(r)
  {
    var values := r.entry.values;
    scratch := LenPrefixed(r.key) + LenPrefixed(r.entry.displayKey) + r.entry.hash + Le32(|values|);
    ghost var head := scratch;
    for i := 0 to |values|
      invariant scratch == head + ValuesBytes(values[..i])
    {
      assert values[..i + 1] == values[..i] + [values[i]];
      ValuesSnoc(values[..i], values[i]);
      Associative(head, ValuesBytes(values[..i]), ValueBytes(values[i]));
      scratch := scratch + if values[i].Some? then LenPrefixed(values[i].value) else Le64(NULL_MARKER);
    }
    assert values[..|values|] == values;
    RecordPieces(LenPrefixed(r.key), LenPrefixed(r.entry.displayKey), r.entry.hash, Le32(|values|),
                 ValuesBytes(values));
  }

  lemma RecordPieces(a: seq<byte>, b: seq<byte>, c: seq<byte>, d: seq<byte>, e: seq<byte>)
    ensures a + b + c + d + e == a + (b + (c + (d + e)))
  {
  }

  // ----- reader --------------------------------------------------------------------------------------

  type Decoder = seq<byte> -> Result<DiffRecord>

  function Decoding(limits: Limits, utf8: Utf8): Decoder { encoded => DecodeRecord(encoded, limits, utf8) }

  ghost predicate DecodesExactly(decode: Decoder) {
    forall encoded {:trigger decode(encoded)} :: decode(encoded).Success? ==>
      encoded == RecordBytes(decode(encoded).value)
  }

  /** `PartitionReader::next` on the unread part of the file. */
  function NextRecord(reader: seq<byte>, records: nat, payload: nat, maxRecordBytes: nat, decode: Decoder)
    : Result<Option<(DiffRecord, seq<byte>)>>
  {
    if records == 0 then if payload != 0 || reader != [] then Failure(Corrupt) else Success(None)
    else
      match ReadLe64(reader)
      case Malformed => Failure(Corrupt)
      case Parsed(n, body) =>
        if n > maxRecordBytes || n + 8 >= U64 || n + 8 > payload || n > |body| then Failure(Corrupt)
        else
          match decode(body[..n])
          case Failure(e) => Failure(e)
          case Success(record) => Success(Some((record, body[n..])))
  }

  lemma NextConsumesFrame(reader: seq<byte>, records: nat, payload: nat, maxRecordBytes: nat, decode: Decoder)
    requires DecodesExactly(decode)
    ensures match NextRecord(reader, records, payload, maxRecordBytes, decode)
            case Success(Some(pair)) => reader == Framed(pair.0) + pair.1 && records > 0 && |Framed(pair.0)| <= payload
            case Success(None) => records == 0 && payload == 0 && reader == []
            case Failure(_) => true
  {
    var r := NextRecord(reader, records, payload, maxRecordBytes, decode);
    if r.Success? && r.value.Some? {
      var n, body := ReadLe64(reader).value, ReadLe64(reader).rest;
      SplitFrame(n, body);
    }
  }

  lemma SplitFrame(n: nat, body: seq<byte>)
    requires n <= |body| && n < U64
    ensures Le64(n) + body == Le64(n) + body[..n] + body[n..]
  {
    Associative(Le64(n), body[..n], body[n..]);
    assert body == body[..n] + body[n..];
  }

  /** One read from the unread bytes, given the remaining record and payload counts. */
  type Stepper = (seq<byte>, nat, nat) -> Result<Option<(DiffRecord, seq<byte>)>>

  function Stepping(maxRecordBytes: nat, decode: Decoder): Stepper {
    (reader, records, payload) => NextRecord(reader, records, payload, maxRecordBytes, decode)
  }

  function Reading(limits: Limits, utf8: Utf8): Stepper { Stepping(limits.maxRecordBytes, Decoding(limits, utf8)) }

  /** A step consumes exactly the frame of the record it returns, and ends only when nothing is left. */
  ghost predicate Faithful(next: Stepper) {
    forall reader, records, payload {:trigger next(reader, records, payload)} ::
      match next(reader, records, payload)
      case Success(Some(pair)) => reader == Framed(pair.0) + pair.1 && records > 0 && |Framed(pair.0)| <= payload
      case Success(None) => records == 0 && payload == 0 && reader == []
      case Failure(_) => true
  }

  lemma ReadingIsFaithful(limits: Limits, utf8: Utf8)
    ensures Faithful(Reading(limits, utf8))
  {
    DecodingIsExact(limits, utf8);
    forall reader, records, payload { NextConsumesFrame(reader, records, payload, limits.maxRecordBytes,
                                                        Decoding(limits, utf8)); }
  }

  lemma DecodingIsExact(limits: Limits, utf8: Utf8)
    ensures DecodesExactly(Decoding(limits, utf8))
  {
  }

  function Drain(next: Stepper, reader: seq<byte>, records: nat, payload: nat): Result<seq<DiffRecord>>
    requires Faithful(next)
    decreases records
  {
    match next(reader, records, payload)
    case Failure(e) => Failure(e)
    case Success(None) => Success([])
    case Success(Some(pair)) =>
      match Drain(next, pair.1, records - 1, payload - |Framed(pair.0)|)
      case Failure(e) => Failure(e)
      case Success(more) => Success([pair.0] + more)
  }

  ghost predicate AllAdmitted(rs: seq<DiffRecord>, limits: Limits, utf8: Utf8) { forall r | r in rs ::
      Admitted(r, limits, utf8) }

  lemma NextOfFramed(r: DiffRecord, rest: seq<byte>, records: nat, payload: nat, maxRecordBytes: nat, decode: Decoder)
    requires decode(RecordBytes(r)) == Success(r) && |RecordBytes(r)| <= maxRecordBytes && |RecordBytes(r)| + 8 < U64
    requires records > 0 && |Framed(r)| <= payload
    ensures NextRecord(Framed(r) + rest, records, payload, maxRecordBytes, decode) == Success(Some((r, rest)))
  {
    var encoded := RecordBytes(r);
    Associative(Le64(|encoded|), encoded, rest);
    ReadLe64Of(|encoded|, encoded + rest);
    assert (encoded + rest)[..|encoded|] == encoded && (encoded + rest)[|encoded|..] == rest;
  }

  /** The stepper reads the written records one by one. */
  ghost predicate ReadsBack(next: Stepper, rs: seq<DiffRecord>)
    decreases |rs|
  {
    if rs == [] then next([], 0, 0) == Success(None)
    else
      && next(Payload(rs), |rs|, |Payload(rs)|) == Success(Some((rs[0], Payload(rs[1..]))))
      && ReadsBack(next, rs[1..])
  }

  lemma {:induction false} FramesReadBack(rs: seq<DiffRecord>, maxRecordBytes: nat, decode: Decoder)
    requires forall r | r in rs ::
             decode(RecordBytes(r)) == Success(r) && |RecordBytes(r)| <= maxRecordBytes && |RecordBytes(r)| + 8 < U64
    ensures ReadsBack(Stepping(maxRecordBytes, decode), rs)
    decreases |rs|
  {
    if rs != [] {
      assert rs[0] in rs;
      NextOfFramed(rs[0], Payload(rs[1..]), |rs|, |Payload(rs)|, maxRecordBytes, decode);
      FramesReadBack(rs[1..], maxRecordBytes, decode);
    }
  }

  lemma WrittenReadsBack(rs: seq<DiffRecord>, limits: Limits, utf8: Utf8)
    requires AllAdmitted(rs, limits, utf8)
    ensures ReadsBack(Reading(limits, utf8), rs)
  {
    forall r | r in rs
      ensures Decoding(limits, utf8)(RecordBytes(r)) == Success(r)
    {
      DecodeRecordOf(r, limits, utf8);
    }
    FramesReadBack(rs, limits.maxRecordBytes, Decoding(limits, utf8));
  }

  lemma {:induction false} DrainOfSteps(next: Stepper, rs: seq<DiffRecord>)
    requires Faithful(next) && ReadsBack(next, rs)
    ensures Drain(next, Payload(rs), |rs|, |Payload(rs)|) == Success(rs)
    decreases |rs|
  {
    if rs != [] {
      DrainOfSteps(next, rs[1..]);
      assert rs == [rs[0]] + rs[1..];
    }
  }

  /** Draining what was written returns it, in order. */
  lemma DrainOfWritten(rs: seq<DiffRecord>, limits: Limits, utf8: Utf8)
    requires AllAdmitted(rs, limits, utf8)
    ensures Faithful(Reading(limits, utf8)) &&
            Drain(Reading(limits, utf8), Payload(rs), |rs|, |Payload(rs)|) == Success(rs)
  {
    ReadingIsFaithful(limits, utf8);
    WrittenReadsBack(rs, limits, utf8);
    DrainOfSteps(Reading(limits, utf8), rs);
  }

  /** Whatever drains without error is the encoding of what it drained to. */
  lemma {:induction false} DrainedIsEncoded(next: Stepper, reader: seq<byte>, records: nat, payload: nat)
    requires Faithful(next) && Drain(next, reader, records, payload).Success?
    ensures var rs := Drain(next, reader, records, payload).value;
            reader == Payload(rs) && records == |rs| && payload == |Payload(rs)|
    decreases records
  {
    var step := next(reader, records, payload).value;
    if step.Some? {
      var (record, rest) := step.value;
      DrainedIsEncoded(next, rest, records - 1, payload - |Framed(record)|);
      var more := Drain(next, rest, records - 1, payload - |Framed(record)|).value;
      assert ([record] + more)[1..] == more;
    }
  }

  class PartitionReader {
    var reader: seq<byte>
    var remainingRecords: nat
    var remainingPayload: nat
    /** Decoding under the limits the reader was opened with. */
    const next: Stepper

    constructor (reader: seq<byte>, records: nat, payload: nat, limits: Limits, utf8: Utf8)
      ensures this.reader == reader && remainingRecords == records && remainingPayload == payload
      ensures next == Reading(limits, utf8)
    {
      this.reader, remainingRecords, remainingPayload, next := reader, records, payload, Reading(limits, utf8);
    }

    ghost function Rest(): Result<seq<DiffRecord>>
      reads this
      requires Faithful(next)
    {
      Drain(next, reader, remainingRecords, remainingPayload)
    }

    /** The first of the records still to come, leaving the others; an error exactly where draining meets one. */
    method Next() returns (r: Result<Option<DiffRecord>>)
      requires Faithful(next)
      modifies this
      ensures r.Failure? ==> old(Rest()) == Failure(r.error)
      ensures r.Success? && r.value.None? ==> old(Rest()) == Success([])
      ensures r.Success? && r.value.Some? ==>
                && remainingRecords < old(remainingRecords)
                && old(Rest()) == if Rest().Success? then Success([r.value.value] + Rest().value) else Rest()
    {
      var step := ReadStep(next, reader, remainingRecords, remainingPayload);
      if step.Failure? {
        return Failure(step.error);
      }
      if step.value.None? {
        return Success(None);
      }
      var (record, rest) := step.value.value;
      reader, remainingRecords, remainingPayload := rest, remainingRecords - 1, remainingPayload - |Framed(record)|;
      r := Success(Some(record));
    }
  }

  method ReadStep(next: Stepper, reader: seq<byte>, records: nat, payload: nat)
    returns (r: Result<Option<(DiffRecord, seq<byte>)>>)
    requires Faithful(next)
    ensures r.Failure? ==> Drain(next, reader, records, payload) == Failure(r.error)
    ensures r.Success? && r.value.None? ==> Drain(next, reader, records, payload) == Success([])
    ensures r.Success? && r.value.Some? ==>
              && records > 0 && |Framed(r.value.value.0)| <= payload
              && var rest := Drain(next, r.value.value.1, records - 1, payload - |Framed(r.value.value.0)|);
              Drain(next, reader, records, payload) == if rest.Success? then Success([r.value.value.0] + rest.value)
                else rest
  {
    r := next(reader, records, payload);
  }

  /** The payload, fed to the hasher through a bounded buffer. */
  method ReadPayload(file: seq<byte>, payloadBytes: nat) returns (hasher: seq<byte>)
    requires |file| == HEADER_BYTES + payloadBytes
    ensures hasher == file[HEADER_BYTES..]
  {
    var remaining, at := payloadBytes, HEADER_BYTES;
    hasher := [];
    while remaining != 0
      invariant at + remaining == |file| && HEADER_BYTES <= at && hasher == file[HEADER_BYTES..at]
    {
      var length := if remaining < 8 * 1024 then remaining else 8 * 1024;
      hasher := hasher + file[at..at + length];
      at, remaining := at + length, remaining - length;
    }
  }

  /** `validate_file`. */
  method ValidateFile(file: seq<byte>, expectedSchema: Digest, hash: HashFunction) returns (r: Result<Header>)
    ensures r.Success? <==>
              && ReadHeader(file).Parsed? && ReadHeader(file).value.schemaDigest == expectedSchema
              && HEADER_BYTES + ReadHeader(file).value.payloadBytes < U64
              && |file| == HEADER_BYTES + ReadHeader(file).value.payloadBytes
              && hash(file[HEADER_BYTES..]) == ReadHeader(file).value.checksum
    ensures r.Success? ==> r.value == ReadHeader(file).value
  {
    var header := ReadHeader(file);
    if header.Malformed? || header.value.schemaDigest != expectedSchema {
      return Failure(Corrupt);
    }
    var h := header.value;
    if HEADER_BYTES + h.payloadBytes >= U64 || |file| != HEADER_BYTES + h.payloadBytes {
      return Failure(Corrupt);
    }
    var hasher := ReadPayload(file, h.payloadBytes);
    if hash(hasher) != h.checksum {
      return Failure(Corrupt);
    }
    r := Success(h);
  }

  /** Opening and draining a file succeeds on the encodings of admitted records, and on nothing else. */
  method ReadAll(file: seq<byte>, schemaDigest: Digest, hash: HashFunction, limits: Limits, utf8: Utf8)
    returns (r: Result<seq<DiffRecord>>)
    ensures r.Success? ==> file == FileOf(r.value, schemaDigest, hash) && Readable(r.value, limits, utf8)
    ensures r.Success? ==>
              forall record | record in r.value ::
                |RecordBytes(record)| <= limits.maxRecordBytes && |record.entry.values| <= limits.maxColumns &&
                  utf8(record.entry.displayKey)
    ensures forall rs | file == FileOf(rs, schemaDigest, hash) && Readable(rs, limits, utf8) :: r == Success(rs)
  {
    forall rs | file == FileOf(rs, schemaDigest, hash) && Readable(rs, limits, utf8)
      ensures WrittenAs(file, rs, schemaDigest, hash, limits, utf8)
    {
      WrittenFile(file, rs, schemaDigest, hash, limits, utf8);
    }
    var header := ValidateFile(file, schemaDigest, hash);
    if header.Failure? {
      return Failure(header.error);
    }
    ReadingIsFaithful(limits, utf8);
    var reader := new PartitionReader(file[HEADER_BYTES..], header.value.records, header.value.payloadBytes, limits,
                                      utf8);
    r := DrainReader(reader);
    if r.Success? {
      DrainedIsEncoded(Reading(limits, utf8), file[HEADER_BYTES..], header.value.records, header.value.payloadBytes);
      ReadingAdmits(limits, utf8);
      DrainedIsAdmitted(Reading(limits, utf8), file[HEADER_BYTES..], header.value.records, header.value.payloadBytes,
                        limits, utf8);
      assert file == HeaderBytes(header.value) + file[HEADER_BYTES..];
    }
  }

  /** Whatever the reader yields is a record it admits. */
  ghost predicate AdmitsOnly(next: Stepper, limits: Limits, utf8: Utf8) {
    forall reader, records, payload {:trigger next(reader, records, payload)} ::
      var step := next(reader, records, payload);
      step.Success? && step.value.Some? ==> Admitted(step.value.value.0, limits, utf8)
  }

  lemma ReadingAdmits(limits: Limits, utf8: Utf8)
    ensures AdmitsOnly(Reading(limits, utf8), limits, utf8)
  {
  }

  lemma {:induction false} DrainedIsAdmitted(next: Stepper, reader: seq<byte>, records: nat, payload: nat,
                                             limits: Limits, utf8: Utf8)
    requires Faithful(next) && AdmitsOnly(next, limits, utf8) && Drain(next, reader, records, payload).Success?
    ensures AllAdmitted(Drain(next, reader, records, payload).value, limits, utf8)
    decreases records
  {
    var step := next(reader, records, payload).value;
    if step.Some? {
      var (record, rest) := step.value;
      DrainedIsAdmitted(next, rest, records - 1, payload - |Framed(record)|, limits, utf8);
      AdmittedCons(record, Drain(next, rest, records - 1, payload - |Framed(record)|).value, limits, utf8);
    }
  }

  lemma AdmittedCons(r: DiffRecord, rs: seq<DiffRecord>, limits: Limits, utf8: Utf8)
    requires Admitted(r, limits, utf8) && AllAdmitted(rs, limits, utf8)
    ensures AllAdmitted([r] + rs, limits, utf8)
  {
  }

  ghost predicate Readable(rs: seq<DiffRecord>, limits: Limits, utf8: Utf8) {
    AllAdmitted(rs, limits, utf8) && |rs| < U64 && HEADER_BYTES + |Payload(rs)| < U64
  }

  ghost predicate WrittenAs(file: seq<byte>, rs: seq<DiffRecord>, schemaDigest: Digest, hash: HashFunction,
                            limits: Limits, utf8: Utf8) {
    && ReadHeader(file).Parsed? &&
      ReadHeader(file).value == Header(schemaDigest, |rs|, |Payload(rs)|, hash(Payload(rs)))
    && |file| >= HEADER_BYTES && file[HEADER_BYTES..] == Payload(rs)
    && Faithful(Reading(limits, utf8)) &&
      Drain(Reading(limits, utf8), file[HEADER_BYTES..], |rs|, |Payload(rs)|) == Success(rs)
  }

  lemma WrittenFile(file: seq<byte>, rs: seq<DiffRecord>, schemaDigest: Digest, hash: HashFunction, limits: Limits,
                    utf8: Utf8)
    requires file == FileOf(rs, schemaDigest, hash) && Readable(rs, limits, utf8)
    ensures WrittenAs(file, rs, schemaDigest, hash, limits, utf8)
  {
    ReadHeaderOf(Header(schemaDigest, |rs|, |Payload(rs)|, hash(Payload(rs))), Payload(rs));
    DrainOfWritten(rs, limits, utf8);
    assert file[HEADER_BYTES..] == Payload(rs);
  }

  method DrainReader(reader: PartitionReader) returns (r: Result<seq<DiffRecord>>)
    requires Faithful(reader.next)
    modifies reader
    ensures r == old(reader.Rest())
  {
    ghost var all := reader.Rest();
    var drained: seq<DiffRecord> := [];
    assert all.Success? ==> [] + all.value == all.value;
    while true
      invariant all == Prepend(drained, reader.Rest())
      decreases reader.remainingRecords
    {
      var next := reader.Next();
      if next.Failure? {
        return Failure(next.error);
      }
      if next.value.None? {
        assert drained + [] == drained;
        return Success(drained);
      }
      PrependOne(drained, next.value.value, reader.Rest());
      drained := drained + [next.value.value];
    }
  }

  function Prepend(first: seq<DiffRecord>, rest: Result<seq<DiffRecord>>): Result<seq<DiffRecord>> {
    if rest.Success? then Success(first + rest.value) else rest
  }

  lemma PrependOne(first: seq<DiffRecord>, record: DiffRecord, rest: Result<seq<DiffRecord>>)
    ensures Prepend(first, if rest.Success? then Success([record] + rest.value) else rest) ==
            Prepend(first + [record], rest)
  {
    if rest.Success? {
      Associative(first, [record], rest.value);
    }
  }

  // ----- the reader's limits ---------------------------------------------------------------------------

  /** A record is admitted exactly within these limits, each of them inclusive. */
  lemma AdmittedMeans(r: DiffRecord, limits: Limits, utf8: Utf8)
    ensures Admitted(r, limits, utf8) <==>
            && |RecordBytes(r)| <= limits.maxRecordBytes && |r.entry.values| <= limits.maxColumns
            && utf8(r.entry.displayKey)
            && |RecordBytes(r)| + 8 < 0x1_0000_0000_0000_0000 && |r.entry.values| < 0x1_0000_0000
  {
  }

  lemma ReadableMeans(rs: seq<DiffRecord>, limits: Limits, utf8: Utf8)
    ensures Readable(rs, limits, utf8) <==>
            && (forall r | r in rs :: Admitted(r, limits, utf8))
            && |rs| < 0x1_0000_0000_0000_0000 && 92 + |Payload(rs)| < 0x1_0000_0000_0000_0000
  {
  }
}
