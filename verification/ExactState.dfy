/**
 Bounded exact state: values are buffered in segments that grow, or that spill into sorted runs
 which are compacted thirty-two at a time; finishing counts them by one merge.

 Budgets and cancellation are adversarial: every reservation may be refused and every check may
 report a cancellation, so the contracts below hold for every schedule.
 */
module ExactState {
  import opened Arithmetic
  import opened Bytes
  import opened Sorting
  import opened Records
  import opened RunFile
  import opened Merge
  import opened Summary

  const MAX_MERGE_FAN_IN: nat := 32
  const MAX_FIXED_RECORDS_PER_SEGMENT: nat := 0x200_0000
  const MAX_BYTE_RECORDS_PER_SEGMENT: nat := 0x100_0000
  const DEFAULT_FIXED_RECORDS_PER_SEGMENT: nat := 65_536
  const DEFAULT_BYTE_RECORDS_PER_SEGMENT: nat := 16_384
  const ASSUMED_BYTES_PER_VALUE: nat := 32
  const FIXED_RECORD_BYTES: nat := 16
  const BYTE_INDEX_BYTES: nat := 16

  datatype FixedSegment = FixedSegment(records: seq<Record>, capacity: nat)

  /** A byte value is a slice of the segment's arena. */
  datatype ByteIndex = ByteIndex(offset: nat, length: nat, row: u64)

  datatype ByteSegment = ByteSegment(arena: seq<byte>, records: seq<ByteIndex>, recordCapacity: nat, byteCapacity: nat)

  datatype Storage =
    | FixedStore(kind: ValueKind, fixed: Option<FixedSegment>, desired: nat)
    | ByteStore(bytes: Option<ByteSegment>, desired: nat)

  function StorageKind(s: Storage): ValueKind {
    match s case FixedStore(kind, _, _) => kind case ByteStore(_, _) => BytesKind
  }

  ghost predicate Within(i: ByteIndex, arena: seq<byte>) { i.offset + i.length <= |arena| }

  function Itself(r: Record): Record { r }

  function Materialize(arena: seq<byte>): ByteIndex -> Record {
    (i: ByteIndex) =>
      Record(ByteString(if i.offset + i.length <= |arena| then arena[i.offset..i.offset + i.length] else []), i.row)
  }

  ghost predicate FixedOk(s: FixedSegment, kind: ValueKind) {
    |s.records| <= s.capacity && OfKind(s.records, kind)
  }

  ghost predicate BytesOk(s: ByteSegment) {
    && |s.records| <= s.recordCapacity && |s.arena| <= s.byteCapacity < U32
    && forall i | i in s.records :: Within(i, s.arena)
  }

  ghost predicate StorageOk(s: Storage) {
    && 1 <= s.desired <= MAX_FIXED_RECORDS_PER_SEGMENT
    && match s
       case FixedStore(kind, segment, _) => !kind.BytesKind? && (segment.Some? ==> FixedOk(segment.value, kind))
       case ByteStore(segment, _) => segment.Some? ==> BytesOk(segment.value)
  }

  /** The records buffered in the current segment, in order of arrival. */
  ghost function Buffered(s: Storage): seq<Record> {
    match s
    case FixedStore(_, segment, _) => if segment.Some? then segment.value.records else []
    case ByteStore(segment, _) =>
      if segment.Some? then Keys(segment.value.records, Materialize(segment.value.arena)) else []
  }

  lemma BufferedOfKind(s: Storage)
    requires StorageOk(s)
    ensures OfKind(Buffered(s), StorageKind(s))
  {
  }

  /**
   The records whose presence can make the engine report corruption: a value the run reader refuses,
   or so many records that a size leaves 64 bits.
   */
  ghost predicate Excusable(m: multiset<Record>) {
    || (exists r :: r in m && !Readable(r))
    || |m| * 64 >= U64
    || HEADER_BYTES + PayloadSize(m) >= U64
  }

  lemma ExcusableMore(m: multiset<Record>, n: multiset<Record>)
    requires Excusable(m)
    ensures Excusable(m + n) && Excusable(n + m)
  {
    PayloadSizePlus(m, n);
    PayloadSizePlus(n, m);
    if r :| r in m && !Readable(r) {
      assert r in m + n && r in n + m;
    }
  }

  lemma UnreadableExcuses(m: multiset<Record>)
    requires !AllReadable(InOrder(m))
    ensures Excusable(m)
  {
    var r :| r in InOrder(m) && !Readable(r);
    assert r in multiset(InOrder(m));
  }

  // ----- segments --------------------------------------------------------------------------------

  method Reserve() returns (granted: bool) {
    granted := *;
  }

  /** `fixed_store_is_full` and `byte_store_is_full`. */
  function IsFull(s: Storage, v: OwnedValue): bool {
    match s
    case FixedStore(_, segment, _) => segment.Some? && |segment.value.records| == segment.value.capacity
    case ByteStore(segment, _) =>
      && segment.Some?
      && (|segment.value.records| == segment.value.recordCapacity
          || (v.ByteString? && |v.bytes| > segment.value.byteCapacity - |segment.value.arena|))
  }

  ghost predicate HasRoom(s: Storage, v: OwnedValue) {
    !IsFull(s, v)
  }

  /** `grow_fixed`: double the segment in place. */
  method GrowFixed(segment: FixedSegment) returns (r: Result<FixedSegment>)
    ensures r.Success? ==> r.value.records == segment.records
    ensures r.Success? ==> r.value.capacity == if segment.capacity == 0 then 1 else 2 * segment.capacity
    ensures r.Failure? && r.error.Corrupt? ==> segment.capacity * FIXED_RECORD_BYTES >= U64
  {
    var extra := Larger(segment.capacity, 1);
    if extra * FIXED_RECORD_BYTES >= U64 {
      return Failure(Corrupt);
    }
    var granted := Reserve();
    if !granted {
      return Failure(Limit);
    }
    r := Success(segment.(capacity := segment.capacity + extra));
  }

  /** `grow_bytes`: enlarge the index, the arena or both, whichever filled up. */
  method GrowBytes(segment: ByteSegment, valueLength: nat) returns (r: Result<ByteSegment>)
    requires BytesOk(segment)
    ensures r.Success? ==> BytesOk(r.value) && r.value.records == segment.records && r.value.arena == segment.arena
    ensures r.Success? ==> |r.value.records| < r.value.recordCapacity
    ensures r.Success? ==> valueLength <= r.value.byteCapacity - |r.value.arena|
    ensures r.Failure? && r.error.Corrupt? ==> |segment.records| * 64 >= U64
  {
    var extraRecords := if |segment.records| == segment.recordCapacity then Larger(segment.recordCapacity, 1) else 0;
    var free := segment.byteCapacity - |segment.arena|;
    var extraBytes := if valueLength > free then Larger(Larger(segment.byteCapacity, valueLength - free), 1) else 0;
    var grown := segment.byteCapacity + extraBytes;
    if grown >= U32 {
      return Failure(Limit);
    }
    if extraRecords * BYTE_INDEX_BYTES + extraBytes >= U64 {
      return Failure(Corrupt);
    }
    var granted := Reserve();
    if !granted {
      return Failure(Limit);
    }
    r := Success(segment.(recordCapacity := segment.recordCapacity + extraRecords, byteCapacity := grown));
  }

  /** `allocate_fixed_segment`: halve the request until the budget grants it. */
  method AllocateFixed(desired: nat) returns (r: Result<FixedSegment>)
    requires desired >= 1
    ensures r.Success? ==> r.value.records == [] && 1 <= r.value.capacity <= desired
    ensures r.Failure? && r.error.Corrupt? ==> desired * FIXED_RECORD_BYTES >= U64
  {
    var capacity := desired;
    while true
      invariant 1 <= capacity <= desired
      decreases capacity
    {
      if capacity * FIXED_RECORD_BYTES >= U64 {
        return Failure(Corrupt);
      }
      var granted := Reserve();
      if granted {
        return Success(FixedSegment([], capacity));
      }
      if capacity <= 1 {
        return Failure(Limit);
      }
      capacity := Larger(capacity / 2, 1);
    }
  }

  /** `allocate_byte_segment`: halve index and arena, but never below the value to be stored. */
  method AllocateBytes(desired: nat, minimumBytes: nat) returns (r: Result<ByteSegment>)
    requires desired >= 1 && minimumBytes < U32
    ensures r.Success? ==> r.value.records == [] && r.value.arena == [] && 1 <= r.value.recordCapacity <= desired
    ensures r.Success? ==> minimumBytes <= r.value.byteCapacity < U32
    ensures r.Failure? && r.error.Corrupt? ==> desired * BYTE_INDEX_BYTES + U32 > U64
  {
    var recordCapacity := desired;
    var byteCapacity := Larger(minimumBytes,
                               if desired * ASSUMED_BYTES_PER_VALUE < U32 then desired * ASSUMED_BYTES_PER_VALUE
                                 else U32 - 1);
    while true
      invariant 1 <= recordCapacity <= desired && minimumBytes <= byteCapacity < U32
      decreases recordCapacity + byteCapacity
    {
      if recordCapacity * BYTE_INDEX_BYTES + byteCapacity >= U64 {
        return Failure(Corrupt);
      }
      var granted := Reserve();
      if granted {
        return Success(ByteSegment([], [], recordCapacity, byteCapacity));
      }
      if recordCapacity <= 1 && byteCapacity <= minimumBytes {
        return Failure(Limit);
      }
      recordCapacity, byteCapacity := Larger(recordCapacity / 2, 1), Larger(byteCapacity / 2, minimumBytes);
    }
  }

  /** `insert_fixed` / `insert_bytes`: allocate a segment if there is none, then append. */
  method Append(s: Storage, v: OwnedValue, row: u64) returns (r: Result<Storage>)
    requires StorageOk(s) && KindOf(v) == StorageKind(s) && HasRoom(s, v)
    ensures r.Success? ==> StorageOk(r.value) && StorageKind(r.value) == StorageKind(s)
    ensures r.Success? ==> Buffered(r.value) == Buffered(s) + [Record(v, row)]
    ensures r.Failure? ==> r.error.Limit?
  {
    match s
    case FixedStore(kind, segment, desired) =>
      var target := FixedSegment([], 0);
      if segment.Some? {
        target := segment.value;
      } else {
        var room := AllocateFixed(desired);
        if room.Failure? {
          return Failure(room.error);
        }
        target := room.value;
      }
      r := Success(FixedStore(kind, Some(target.(records := target.records + [Record(v, row)])), desired));
    case ByteStore(segment, desired) =>
      if |v.bytes| >= U32 {
        return Failure(Limit);
      }
      var target := ByteSegment([], [], 0, 0);
      if segment.Some? {
        target := segment.value;
      } else {
        var room := AllocateBytes(desired, |v.bytes|);
        if room.Failure? {
          return Failure(room.error);
        }
        target := room.value;
      }
      var index := ByteIndex(|target.arena|, |v.bytes|, row);
      var grown := target.(arena := target.arena + v.bytes, records := target.records + [index]);
      AppendedSlice(target, v.bytes, index);
      r := Success(ByteStore(Some(grown), desired));
  }

  /** Appending to the arena leaves every earlier slice as it was. */
  lemma AppendedSlice(target: ByteSegment, bytes: seq<byte>, index: ByteIndex)
    requires forall i | i in target.records :: Within(i, target.arena)
    requires index.offset == |target.arena| && index.length == |bytes|
    ensures forall i | i in target.records + [index] :: Within(i, target.arena + bytes)
    ensures Keys(target.records + [index], Materialize(target.arena + bytes))
            == Keys(target.records, Materialize(target.arena)) + [Record(ByteString(bytes), index.row)]
  {
    var arena := target.arena + bytes;
    forall i | i in target.records ensures Within(i, arena) && Materialize(arena)(i) == Materialize(target.arena)(i) {
      assert Within(i, target.arena);
      SliceKept(target.arena, bytes, i.offset, i.offset + i.length);
    }
    assert arena[index.offset..index.offset + index.length] == bytes;
    KeysSnoc(target.records, index, Materialize(arena));
    assert Keys(target.records, Materialize(arena)) == Keys(target.records, Materialize(target.arena));
  }

  lemma SliceKept<T>(a: seq<T>, b: seq<T>, low: nat, high: nat)
    requires low <= high <= |a|
    ensures (a + b)[low..high] == a[low..high]
  {
  }

  lemma KeysSnoc<A, T>(s: seq<A>, x: A, key: A -> T)
    ensures Keys(s + [x], key) == Keys(s, key) + [key(x)]
  {
  }

  // ----- spilling and compaction -----------------------------------------------------------------

  /** `spill_fixed` / `spill_bytes`: sort the segment and write it out as one run. */
  method Spill(s: Storage, hash: HashFunction) returns (r: Result<Option<RunMeta>>, emptied: Storage)
    requires StorageOk(s)
    ensures StorageOk(emptied) && StorageKind(emptied) == StorageKind(s) && Buffered(emptied) == [] &&
            !IsFull(emptied, Signed(0))
    ensures forall v :: HasRoom(emptied, v)
    ensures r.Success? && r.value.Some? ==>
            Stores(r.value.value, InOrder(multiset(Buffered(s))), hash) && r.value.value.kind == StorageKind(s)
    ensures r.Success? && r.value.None? ==> Buffered(s) == []
    ensures r.Failure? && r.error.Corrupt? ==> Excusable(multiset(Buffered(s)))
  {
    BufferedOfKind(s);
    RecordOrder();
    var sorted: seq<Record> := [];
    match s {
      case FixedStore(kind, segment, desired) =>
        emptied := FixedStore(kind, None, desired);
        if segment.None? || segment.value.records == [] {
          return Success(None), emptied;
        }
        sorted := SortedRecords(segment.value.records, Itself);
        assert Keys(segment.value.records, Itself) == segment.value.records;
      case ByteStore(segment, desired) =>
        emptied := ByteStore(None, desired);
        if segment.None? || segment.value.records == [] {
          return Success(None), emptied;
        }
        sorted := SortedRecords(segment.value.records, Materialize(segment.value.arena));
    }
    InOrderOfKind(Buffered(s), StorageKind(s));
    r := WriteSpilled(sorted, StorageKind(s), multiset(Buffered(s)), hash);
  }

  method WriteSpilled(sorted: seq<Record>, kind: ValueKind, ghost buffered: multiset<Record>, hash: HashFunction)
    returns (r: Result<Option<RunMeta>>)
    requires sorted == InOrder(buffered) && OfKind(sorted, kind)
    ensures r.Success? ==> r.value.Some? && Stores(r.value.value, InOrder(buffered), hash) && r.value.value.kind == kind
    ensures r.Failure? && r.error.Corrupt? ==> Excusable(buffered)
  {
    var written := WriteRun(kind, sorted, hash);
    assert |sorted| == |multiset(sorted)|;
    r := if written.Failure? then Failure(written.error) else Success(Some(written.value));
  }

  /** Sort a segment by the records its entries denote, and read those records off. */
  function SortedRecords<A>(s: seq<A>, record: A -> Record): (r: seq<Record>)
    ensures r == InOrder(multiset(Keys(s, record)))
  {
    RecordOrder();
    SortByKeys(s, record, RecordLeq);
    Keys(SortBy(s, record, RecordLeq), record)
  }

  lemma InOrderOfKind(s: seq<Record>, kind: ValueKind)
    requires OfKind(s, kind)
    ensures OfKind(InOrder(multiset(s)), kind)
  {
    forall r | r in InOrder(multiset(s)) ensures r in s {
      assert r in multiset(InOrder(multiset(s)));
    }
  }

  ghost predicate SameKind(runs: seq<RunMeta>, kind: ValueKind) { forall r | r in runs :: r.kind == kind }

  lemma {:induction false} AllOfKind(lists: seq<seq<Record>>, kind: ValueKind)
    requires forall i | 0 <= i < |lists| :: OfKind(lists[i], kind)
    ensures OfKind(InOrder(AllOf(lists)), kind)
  {
    forall r | r in InOrder(AllOf(lists)) ensures KindOf(r.value) == kind && Framable(r) {
      assert r in multiset(InOrder(AllOf(lists)));
      AllOfMember(lists, r);
    }
  }

  /** Sums of the sizes the run headers announce. */
  lemma {:induction false} TotalsAgree(runs: seq<RunMeta>, lists: seq<seq<Record>>, n: nat, hash: HashFunction)
    requires AllStore(runs, lists, hash) && n <= |runs|
    ensures RecordTotal(runs[..n]) == |AllOf(lists[..n])|
    ensures ByteTotal(runs[..n]) == TotalBytes(lists[..n])
  {
    if n > 0 {
      TotalsAgree(runs, lists, n - 1, hash);
      assert runs[..n][..n - 1] == runs[..n - 1];
      TakeOneMore([], lists, n - 1);
      AllOfSnoc(lists[..n - 1], lists[n - 1]);
      TotalBytesSnoc(lists[..n - 1], lists[n - 1]);
    }
  }

  lemma AllOfSnoc(lists: seq<seq<Record>>, s: seq<Record>)
    ensures AllOf(lists + [s]) == AllOf(lists) + multiset(s)
  {
    AllOfConcat(lists, [s]);
    assert AllOf([s]) == multiset(s);
  }

  lemma {:induction false} TotalBytesSnoc(lists: seq<seq<Record>>, s: seq<Record>)
    ensures TotalBytes(lists + [s]) == TotalBytes(lists) + |Payload(s)|
  {
    if lists == [] {
      assert [] + [s] == [s];
    } else {
      assert (lists + [s])[1..] == lists[1..] + [s];
      TotalBytesSnoc(lists[1..], s);
    }
  }

  function RecordTotal(runs: seq<RunMeta>): nat {
    if runs == [] then 0 else RecordTotal(runs[..|runs| - 1]) + runs[|runs| - 1].records
  }

  function ByteTotal(runs: seq<RunMeta>): nat {
    if runs == [] then 0 else ByteTotal(runs[..|runs| - 1]) + runs[|runs| - 1].payloadBytes
  }

  method VerifyAll(runs: seq<RunMeta>, ghost lists: seq<seq<Record>>, hash: HashFunction) returns (r: Result<()>)
    requires AllStore(runs, lists, hash)
    ensures r.Failure? ==> r.error.Limit?
  {
    for i := 0 to |runs| {
      var one := VerifyPayload(runs[i], hash);
      assert runs[i].file[HEADER_BYTES..] == Payload(lists[i]);
      if one.Failure? {
        return one;
      }
    }
    r := Success(());
  }

  /**
   `run::compact`. Corruption is reported only for a value the reader refuses or a size beyond u64:
   the lengths written always equal the lengths announced.
   */
  method Compact(runs: seq<RunMeta>, ghost lists: seq<seq<Record>>, kind: ValueKind, hash: HashFunction)
    returns (r: Result<RunMeta>)
    requires AllStore(runs, lists, hash) && runs != [] && SameKind(runs, kind)
    ensures r.Success? ==> Stores(r.value, InOrder(AllOf(lists)), hash) && r.value.kind == kind
    ensures r.Success? && LongestKnown(runs, lists, kind) ==>
            Longest(r.value.maxRecordBytes, InOrder(AllOf(lists)), kind)
    ensures r.Failure? && r.error.Corrupt? ==>
              !AllReadable(InOrder(AllOf(lists))) || |AllOf(lists)| >= U64 || HEADER_BYTES + TotalBytes(lists) >= U64
  {
    var verified := VerifyAll(runs, lists, hash);
    if verified.Failure? {
      return Failure(verified.error);
    }
    TotalsAgree(runs, lists, |runs|, hash);
    assert runs[..|runs|] == runs && lists[..|lists|] == lists;
    var records, payloadBytes := RecordTotal(runs), ByteTotal(runs);
    if records >= U64 || HEADER_BYTES + payloadBytes >= U64 {
      return Failure(Corrupt);
    }
    var granted := Reserve();
    if !granted {
      return Failure(Limit);
    }
    var payload := MergePayload(runs, lists, hash);
    if payload.Failure? {
      return Failure(payload.error);
    }
    AllOfKind(lists, kind);
    assert |InOrder(AllOf(lists))| == |multiset(InOrder(AllOf(lists)))|;
    LongestOfUnion(runs, lists, kind);
    var checksum := hash(payload.value.0);
    assert payload.value.1 == records && |payload.value.0| == payloadBytes;
    r := Success(RunMeta(Header(kind, records, payloadBytes, checksum) + payload.value.0, kind, records, payloadBytes,
                         LongestRecord(runs), checksum));
  }

  function LongestRecord(runs: seq<RunMeta>): nat {
    if runs == [] then 0 else Larger(runs[0].maxRecordBytes, LongestRecord(runs[1..]))
  }

  /** Every run tells its longest value, as `WriteRun` leaves it. */
  ghost predicate LongestKnown(runs: seq<RunMeta>, lists: seq<seq<Record>>, kind: ValueKind) {
    |runs| == |lists| && forall i | 0 <= i < |runs| :: Longest(runs[i].maxRecordBytes, lists[i], kind)
  }

  lemma LongestOfUnion(runs: seq<RunMeta>, lists: seq<seq<Record>>, kind: ValueKind)
    requires runs != []
    ensures LongestKnown(runs, lists, kind) ==> Longest(LongestRecord(runs), InOrder(AllOf(lists)), kind)
  {
    if LongestKnown(runs, lists, kind) {
      var all, n := InOrder(AllOf(lists)), LongestRecord(runs);
      LongestAmong(runs);
      NoneLonger(runs, lists, kind);
      var i :| 0 <= i < |runs| && runs[i].maxRecordBytes == n;
      if n != (if kind.BytesKind? then 0 else 8) {
        var r :| r in lists[i] && ValueBytes(r.value) == n;
        AllOfMember(lists, r);
        assert r in multiset(all);
      }
    }
  }

  lemma NoneLonger(runs: seq<RunMeta>, lists: seq<seq<Record>>, kind: ValueKind)
    requires runs != [] && LongestKnown(runs, lists, kind)
    ensures forall r | r in InOrder(AllOf(lists)) :: ValueBytes(r.value) <= LongestRecord(runs)
  {
    LongestAmong(runs);
    forall r | r in InOrder(AllOf(lists)) ensures ValueBytes(r.value) <= LongestRecord(runs) {
      assert r in multiset(InOrder(AllOf(lists)));
      AllOfMember(lists, r);
    }
  }

  lemma {:induction false} LongestAmong(runs: seq<RunMeta>)
    requires runs != []
    ensures forall i | 0 <= i < |runs| :: runs[i].maxRecordBytes <= LongestRecord(runs)
    ensures exists i :: 0 <= i < |runs| && runs[i].maxRecordBytes == LongestRecord(runs)
  {
    if |runs| > 1 {
      LongestAmong(runs[1..]);
      var i :| 0 <= i < |runs[1..]| && runs[1..][i].maxRecordBytes == LongestRecord(runs[1..]);
      assert runs[i + 1].maxRecordBytes == LongestRecord(runs[1..]);
      forall k | 0 < k < |runs| ensures runs[k].maxRecordBytes <= LongestRecord(runs) {
        assert runs[k] == runs[1..][k - 1];
      }
    } else {
      assert LongestRecord(runs[1..]) == 0;
    }
  }

  lemma UnreadableSuffix(s: seq<Record>, n: nat)
    requires n <= |s| && !AllReadable(s[n..])
    ensures !AllReadable(s)
  {
    var r :| r in s[n..] && !Readable(r);
    assert r in s;
  }

  lemma DropHead<T>(s: seq<T>, n: nat, head: T, rest: seq<T>)
    requires n <= |s| && s[n..] == [head] + rest
    ensures n < |s| && s[n] == head && s[n + 1..] == rest && s[..n + 1] == s[..n] + [head]
  {
    assert s[n] == s[n..][0];
    assert s[n + 1..] == s[n..][1..];
  }

  /** `merge_compacted_payload`: the merged payload and the number of records in it. */
  method MergePayload(runs: seq<RunMeta>, ghost lists: seq<seq<Record>>, ghost hash: HashFunction)
    returns (r: Result<(seq<byte>, nat)>)
    requires AllStore(runs, lists, hash)
    ensures r.Success? ==> r.value == (Payload(InOrder(AllOf(lists))), |AllOf(lists)|)
    ensures r.Success? ==> |r.value.0| == TotalBytes(lists)
    ensures r.Failure? && r.error.Corrupt? ==> !AllReadable(InOrder(AllOf(lists)))
  {
    ghost var all := InOrder(AllOf(lists));
    assert |all| == |multiset(all)|;
    var opening := OpenMerge(runs, lists, hash);
    if opening.Failure? {
      return Failure(opening.error);
    }
    r := DrainPayload(opening.value);
  }

  method DrainPayload(source: MergeSource) returns (r: Result<(seq<byte>, nat)>)
    requires source.Valid()
    modifies source
    ensures r.Success? ==> r.value == (Payload(old(source.queue)), |old(source.queue)|)
    ensures r.Success? ==> |r.value.0| == old(source.bytes)
    ensures r.Failure? && r.error.Corrupt? ==> !AllReadable(old(source.queue))
  {
    ghost var s, size := source.queue, source.bytes;
    var payload, written := [], 0;
    while true
      invariant source.Valid() && Drained(payload, written, source.queue, source.bytes, s, size)
      decreases |source.queue|
    {
      var cancelled: bool := *;
      if cancelled {
        return Failure(Limit);
      }
      var next;
      next, payload, written := DrainOne(source, payload, written, s, size);
      if next.Failure? {
        return Failure(next.error);
      }
      if next.value.None? {
        break;
      }
    }
    r := Success((payload, written));
  }

  /** Append the next record, if any, to the payload. */
  method DrainOne(source: MergeSource, payload: seq<byte>, written: nat, ghost s: seq<Record>, ghost size: nat)
    returns (next: Result<Option<Record>>, more: seq<byte>, count: nat)
    requires source.Valid() && Drained(payload, written, source.queue, source.bytes, s, size)
    modifies source
    ensures next.Success? ==> source.Valid()
    ensures next.Success? && next.value.Some? ==> Drained(more, count, source.queue, source.bytes, s, size)
    ensures next.Success? && next.value.Some? ==> |source.queue| < |old(source.queue)|
    ensures next.Success? && next.value.None? ==> more == Payload(s) && count == |s| && |more| == size
    ensures next.Failure? && next.error.Corrupt? ==> !AllReadable(s)
  {
    ghost var queue, bytes := source.queue, source.bytes;
    next := source.Take();
    DrainedMore(next, payload, written, queue, bytes, source.queue, source.bytes, s, size);
    more, count := payload, written;
    if next.Success? && next.value.Some? {
      more, count := payload + RecordBytes(next.value.value), written + 1;
    }
  }

  lemma DrainedMore(next: Result<Option<Record>>, payload: seq<byte>, written: nat, queue: seq<Record>, bytes: nat,
                    left: seq<Record>, leftBytes: nat, s: seq<Record>, size: nat)
    requires Drained(payload, written, queue, bytes, s, size) && Popped(next, queue, bytes, left, leftBytes)
    ensures next.Success? && next.value.Some? ==>
              Drained(payload + RecordBytes(next.value.value), written + 1, left, leftBytes, s, size) &&
                |left| < |queue|
    ensures next.Success? && next.value.None? ==>
              payload == Payload(s) && written == |s| && |payload| == size
    ensures next.Failure? && next.error.Corrupt? ==> !AllReadable(s)
  {
    match next
    case Success(Some(record)) =>
      assert queue[1..] == left;
      Associative(payload, RecordBytes(record), Payload(left));
      forall r | r in left ensures r in queue {
      }
    case Success(None) =>
      assert payload + [] == payload;
    case Failure(_) =>
  }

  /** What is written so far and what is still queued make up the records `s`. */
  ghost predicate Drained(payload: seq<byte>, written: nat, queue: seq<Record>, bytes: nat, s: seq<Record>, size: nat) {
    && Payload(s) == payload + Payload(queue) && |s| == written + |queue| && size == |payload| + bytes
    && (AllReadable(s) ==> AllReadable(queue))
  }

  /** Count one merged entry against the first entry of the current value. */
  method CountEntry(ghost s: seq<Record>, ghost n: nat, entry: Record, first: Option<Record>, maxSamples: nat,
                    distinct: nat, duplicates: nat, samples: seq<DuplicateSample>)
    returns (leader: Option<Record>, distinct': nat, duplicates': nat, samples': seq<DuplicateSample>)
    requires n < |s| && entry == s[n] && PassAt(s, n, maxSamples, distinct, duplicates, samples)
    requires first == if n == 0 then None else Some(s[LeaderIndex(s, n - 1)])
    ensures PassAt(s, n + 1, maxSamples, distinct', duplicates', samples')
    ensures leader == Some(s[LeaderIndex(s, n)])
  {
    leader, distinct', duplicates', samples' := first, distinct, duplicates, samples;
    PassStep(s, n, maxSamples, distinct, duplicates, samples);
    if first.Some? && first.value.value == entry.value {
      duplicates' := duplicates + 1;
      if |samples| < maxSamples {
        samples' := samples + [DuplicateSample(first.value.row, entry.row)];
      }
    } else {
      distinct' := distinct + 1;
      leader := Some(entry);
    }
  }

  /** `run::merge`: count the merged records without holding more than one per run. */
  method CountMerged(runs: seq<RunMeta>, ghost lists: seq<seq<Record>>, maxSamples: nat, hash: HashFunction)
    returns (r: Result<ExactSummary>)
    requires AllStore(runs, lists, hash)
    ensures r.Success? ==> Summarizes(r.value, AllOf(lists), maxSamples)
    ensures r.Failure? && r.error.Corrupt? ==> !AllReadable(InOrder(AllOf(lists)))
  {
    var verified := VerifyAll(runs, lists, hash);
    if verified.Failure? {
      return Failure(verified.error);
    }
    var granted := Reserve();
    if !granted {
      return Failure(Limit);
    }
    var opening := OpenMerge(runs, lists, hash);
    if opening.Failure? {
      return Failure(opening.error);
    }
    r := CountQueue(opening.value, maxSamples);
    assert multiset(InOrder(AllOf(lists))) == AllOf(lists);
  }

  method CountQueue(source: MergeSource, maxSamples: nat) returns (r: Result<ExactSummary>)
    requires source.Valid() && Ascending(source.queue)
    modifies source
    ensures r.Success? ==> Summarizes(r.value, multiset(old(source.queue)), maxSamples)
    ensures r.Failure? && r.error.Corrupt? ==> !AllReadable(old(source.queue))
  {
    ghost var s, n: nat := source.queue, 0;
    var distinct, duplicates, samples := 0, 0, [];
    var previous: Option<Record> := None;
    while true
      invariant source.Valid() && n <= |s| && source.queue == s[n..]
      invariant PassAt(s, n, maxSamples, distinct, duplicates, samples)
      invariant previous == if n == 0 then None else Some(s[LeaderIndex(s, n - 1)])
      decreases |source.queue|
    {
      var cancelled: bool := *;
      if cancelled {
        return Failure(Limit);
      }
      var next := source.Take();
      if next.Failure? {
        UnreadableSuffix(s, n);
        return Failure(next.error);
      }
      if next.value.None? {
        break;
      }
      DropHead(s, n, next.value.value, source.queue);
      previous, distinct, duplicates, samples := CountEntry(s, n, next.value.value, previous, maxSamples, distinct,
                                                            duplicates, samples);
      n := n + 1;
    }
    PassDone(s, maxSamples, distinct, duplicates, samples);
    r := Success(ExactSummary(distinct, duplicates, samples));
  }

  /** Drain the oldest thirty-two runs and put their merge in front of the others. */
  method CompactOldest(runs: seq<RunMeta>, ghost lists: seq<seq<Record>>, kind: ValueKind, hash: HashFunction)
    returns (r: Result<()>, kept: seq<RunMeta>, ghost keptLists: seq<seq<Record>>)
    requires AllStore(runs, lists, hash) && SameKind(runs, kind) && |runs| > MAX_MERGE_FAN_IN
    ensures r.Success? ==> AllStore(kept, keptLists, hash) && SameKind(kept, kind) && AllOf(keptLists) == AllOf(lists)
    ensures r.Success? ==> |kept| == |runs| - MAX_MERGE_FAN_IN + 1
    ensures r.Failure? && r.error.Corrupt? ==> Excusable(AllOf(lists))
  {
    ghost var inputLists, otherLists := lists[..MAX_MERGE_FAN_IN], lists[MAX_MERGE_FAN_IN..];
    SplitStored(runs, lists, MAX_MERGE_FAN_IN, kind, hash);
    r, kept, keptLists := CompactFront(runs[..MAX_MERGE_FAN_IN], runs[MAX_MERGE_FAN_IN..], inputLists, otherLists, kind,
                                       hash);
  }

  lemma SplitStored(runs: seq<RunMeta>, lists: seq<seq<Record>>, n: nat, kind: ValueKind, hash: HashFunction)
    requires AllStore(runs, lists, hash) && SameKind(runs, kind) && n <= |runs|
    ensures AllStore(runs[..n], lists[..n], hash) && SameKind(runs[..n], kind)
    ensures AllStore(runs[n..], lists[n..], hash) && SameKind(runs[n..], kind)
    ensures lists == lists[..n] + lists[n..]
  {
  }

  method CompactFront(inputs: seq<RunMeta>, others: seq<RunMeta>, ghost inputLists: seq<seq<Record>>,
                      ghost otherLists: seq<seq<Record>>,
                      kind: ValueKind, hash: HashFunction)
    returns (r: Result<()>, kept: seq<RunMeta>, ghost keptLists: seq<seq<Record>>)
    requires AllStore(inputs, inputLists, hash) && SameKind(inputs, kind) && inputs != []
    requires AllStore(others, otherLists, hash) && SameKind(others, kind)
    ensures r.Success? ==>
            AllStore(kept, keptLists, hash) && SameKind(kept, kind) &&
              AllOf(keptLists) == AllOf(inputLists + otherLists)
    ensures r.Success? ==> |kept| == |others| + 1
    ensures r.Failure? && r.error.Corrupt? ==> Excusable(AllOf(inputLists + otherLists))
  {
    var compacted := Compact(inputs, inputLists, kind, hash);
    if compacted.Failure? {
      if compacted.error.Corrupt? {
        CompactionExcused(inputLists, otherLists);
      }
      r, kept, keptLists := Failure(compacted.error), others, otherLists;
      return;
    }
    ghost var merged := InOrder(AllOf(inputLists));
    MergedFront(inputLists, otherLists, merged);
    FrontStored(compacted.value, merged, others, otherLists, hash);
    r, kept, keptLists := Success(()), [compacted.value] + others, [merged] + otherLists;
  }

  lemma CompactionExcused(inputs: seq<seq<Record>>, others: seq<seq<Record>>)
    requires !AllReadable(InOrder(AllOf(inputs))) || |AllOf(inputs)| >= U64 || HEADER_BYTES + TotalBytes(inputs) >= U64
    ensures Excusable(AllOf(inputs + others))
  {
    InputsExcused(inputs);
    AllOfConcat(inputs, others);
    ExcusableMore(AllOf(inputs), AllOf(others));
  }

  lemma InputsExcused(lists: seq<seq<Record>>)
    requires !AllReadable(InOrder(AllOf(lists))) || |AllOf(lists)| >= U64 || HEADER_BYTES + TotalBytes(lists) >= U64
    ensures Excusable(AllOf(lists))
  {
    TotalBytesIsSize(lists);
    if !AllReadable(InOrder(AllOf(lists))) {
      UnreadableExcuses(AllOf(lists));
    }
  }

  lemma MergedFront(inputs: seq<seq<Record>>, others: seq<seq<Record>>, merged: seq<Record>)
    requires multiset(merged) == AllOf(inputs)
    ensures AllOf([merged] + others) == AllOf(inputs + others)
  {
    AllOfConcat(inputs, others);
    AllOfConcat([merged], others);
    assert AllOf([merged]) == multiset(merged);
  }

  lemma FrontStored(run: RunMeta, s: seq<Record>, runs: seq<RunMeta>, lists: seq<seq<Record>>, hash: HashFunction)
    requires Stores(run, s, hash) && AllStore(runs, lists, hash)
    ensures AllStore([run] + runs, [s] + lists, hash)
  {
    Behind(run, runs);
    Behind(s, lists);
  }

  lemma Behind<T>(x: T, s: seq<T>)
    ensures ([x] + s)[0] == x && forall i | 0 < i <= |s| :: ([x] + s)[i] == s[i - 1]
  {
  }

  /** `compact_runs_if_needed`: fold the oldest thirty-two runs into one until the fan-in fits. */
  method CompactIfNeeded(runs: seq<RunMeta>, ghost lists: seq<seq<Record>>, kind: ValueKind, hash: HashFunction)
    returns (r: Result<()>, kept: seq<RunMeta>, ghost keptLists: seq<seq<Record>>, compactions: nat)
    requires AllStore(runs, lists, hash) && SameKind(runs, kind)
    ensures r.Success? ==> AllStore(kept, keptLists, hash) && SameKind(kept, kind)
    ensures r.Success? ==> AllOf(keptLists) == AllOf(lists) && |kept| <= MAX_MERGE_FAN_IN
    ensures r.Success? ==> (kept == [] <==> runs == [])
    ensures |runs| <= MAX_MERGE_FAN_IN ==> r.Success? && kept == runs && keptLists == lists && compactions == 0
    ensures r.Failure? && r.error.Corrupt? ==> Excusable(AllOf(lists))
  {
    kept, keptLists, compactions := runs, lists, 0;
    while |kept| > MAX_MERGE_FAN_IN
      invariant AllStore(kept, keptLists, hash) && SameKind(kept, kind) && AllOf(keptLists) == AllOf(lists)
      invariant kept == [] <==> runs == []
      invariant |runs| <= MAX_MERGE_FAN_IN ==> kept == runs && keptLists == lists && compactions == 0
    {
      var cancelled: bool := *;
      if cancelled {
        r := Failure(Limit);
        return;
      }
      r, kept, keptLists := CompactOldest(kept, keptLists, kind, hash);
      if r.Failure? {
        return;
      }
      compactions := compactions + 1;
    }
    r := Success(());
  }

  /** Storage and runs together hold exactly `contents`. */
  ghost predicate Holding(storage: Storage, runs: seq<RunMeta>, lists: seq<seq<Record>>, contents: multiset<Record>,
                          kind: ValueKind, spills: bool, hash: HashFunction) {
    && StorageOk(storage) && StorageKind(storage) == kind
    && AllStore(runs, lists, hash) && SameKind(runs, kind) && |runs| <= MAX_MERGE_FAN_IN
    && contents == multiset(Buffered(storage)) + AllOf(lists)
    && (!spills ==> runs == [])
  }

  /** `spill_current` followed by `compact_runs_if_needed`; `seal` is the same pair. */
  method SpillAndCompact(storage: Storage, runs: seq<RunMeta>, ghost lists: seq<seq<Record>>,
                         ghost contents: multiset<Record>,
                         kind: ValueKind, hash: HashFunction)
    returns (r: Result<()>, emptied: Storage, kept: seq<RunMeta>, ghost keptLists: seq<seq<Record>>, compactions: nat)
    requires Holding(storage, runs, lists, contents, kind, true, hash)
    ensures StorageOk(emptied) && StorageKind(emptied) == kind && Buffered(emptied) == [] && forall v ::
            HasRoom(emptied, v)
    ensures r.Success? ==> Holding(emptied, kept, keptLists, contents, kind, true, hash) && AllOf(keptLists) == contents
    ensures r.Success? ==> (kept == [] ==> contents == multiset{})
    ensures r.Failure? && r.error.Corrupt? ==> Excusable(contents)
  {
    kept, keptLists, compactions := runs, lists, 0;
    ghost var buffered := multiset(Buffered(storage));
    var spilled;
    spilled, emptied := Spill(storage, hash);
    if spilled.Failure? {
      SpilledContents(buffered, lists, contents);
      r := Failure(spilled.error);
      return;
    }
    kept, keptLists := AddRun(runs, lists, spilled.value, buffered, contents, kind, hash);
    r, kept, keptLists, compactions := CompactIfNeeded(kept, keptLists, kind, hash);
  }

  /** `runs.push`, if the spill wrote anything. */
  method AddRun(runs: seq<RunMeta>, ghost lists: seq<seq<Record>>, spilled: Option<RunMeta>,
                ghost buffered: multiset<Record>,
                ghost contents: multiset<Record>, ghost kind: ValueKind, ghost hash: HashFunction)
    returns (kept: seq<RunMeta>, ghost keptLists: seq<seq<Record>>)
    requires AllStore(runs, lists, hash) && SameKind(runs, kind) && contents == buffered + AllOf(lists)
    requires if spilled.Some? then Stores(spilled.value, InOrder(buffered), hash) && spilled.value.kind == kind
             else buffered == multiset{}
    ensures AllStore(kept, keptLists, hash) && SameKind(kept, kind) && AllOf(keptLists) == contents
    ensures kept == [] ==> contents == multiset{}
  {
    SpilledContents(buffered, lists, contents);
    kept, keptLists := runs, lists;
    if spilled.Some? {
      kept, keptLists := runs + [spilled.value], lists + [InOrder(buffered)];
    }
  }

  /** The run written by a spill takes the place of the buffer. */
  lemma SpilledContents(buffered: multiset<Record>, lists: seq<seq<Record>>, contents: multiset<Record>)
    requires contents == buffered + AllOf(lists)
    ensures AllOf(lists + [InOrder(buffered)]) == contents && (buffered == multiset{} ==> AllOf(lists) == contents)
    ensures Excusable(buffered) ==> Excusable(contents)
  {
    AllOfSnoc(lists, InOrder(buffered));
    if Excusable(buffered) {
      ExcusableMore(buffered, AllOf(lists));
    }
  }

  /** Make room for one more value: grow in place without a spill target, spill with one. */
  method MakeRoom(storage: Storage, runs: seq<RunMeta>, ghost lists: seq<seq<Record>>, ghost contents: multiset<Record>,
                  kind: ValueKind, spills: bool, hash: HashFunction, v: OwnedValue)
    returns (r: Result<()>, ready: Storage, kept: seq<RunMeta>, ghost keptLists: seq<seq<Record>>, compactions: nat)
    requires Holding(storage, runs, lists, contents, kind, spills, hash) && KindOf(v) == kind
    ensures r.Success? ==> Holding(ready, kept, keptLists, contents, kind, spills, hash) && HasRoom(ready, v)
    ensures r.Failure? && r.error.Corrupt? ==> Excusable(contents)
  {
    ready, kept, keptLists, compactions := storage, runs, lists, 0;
    if !IsFull(storage, v) {
      r := Success(());
      return;
    }
    if spills {
      r, ready, kept, keptLists, compactions := SpillAndCompact(storage, runs, lists, contents, kind, hash);
      return;
    }
    match storage
    case FixedStore(_, segment, desired) =>
      var grown := GrowFixed(segment.value);
      if grown.Failure? {
        ManyBuffered(storage, lists);
        r := Failure(grown.error);
        return;
      }
      ready := FixedStore(kind, Some(grown.value), desired);
      r := Success(());
    case ByteStore(segment, desired) =>
      var grown := GrowBytes(segment.value, |v.bytes|);
      if grown.Failure? {
        ManyBuffered(storage, lists);
        r := Failure(grown.error);
        return;
      }
      ready := ByteStore(Some(grown.value), desired);
      r := Success(());
  }

  lemma ManyBuffered(storage: Storage, lists: seq<seq<Record>>)
    ensures |Buffered(storage)| * 64 >= U64 ==> Excusable(multiset(Buffered(storage)) + AllOf(lists))
    ensures storage.FixedStore? && storage.fixed.Some? ==> |Buffered(storage)| == |storage.fixed.value.records|
    ensures storage.ByteStore? && storage.bytes.Some? ==> |Buffered(storage)| == |storage.bytes.value.records|
  {
    assert |multiset(Buffered(storage))| == |Buffered(storage)|;
  }

  function Clamp(n: nat, low: nat, high: nat): nat
    requires low <= high
  {
    if n < low then low else if n > high then high else n
  }

  /** `FixedStore::new` / `ByteStore::new`: the row-count hint counts only when there is a spill target. */
  function EmptyStorage(kind: ValueKind, spills: bool, rowCountHint: Option<nat>): (s: Storage)
    ensures StorageOk(s) && StorageKind(s) == kind && Buffered(s) == []
  {
    if kind.BytesKind? then
      ByteStore(None, Clamp(if spills && rowCountHint.Some? then rowCountHint.value
                            else DEFAULT_BYTE_RECORDS_PER_SEGMENT,
                            1, MAX_BYTE_RECORDS_PER_SEGMENT))
    else
      FixedStore(kind, None, Clamp(if spills && rowCountHint.Some? then rowCountHint.value
                                   else DEFAULT_FIXED_RECORDS_PER_SEGMENT,
                                   1, MAX_FIXED_RECORDS_PER_SEGMENT))
  }

  class ExactState {
    const kind: ValueKind
    const spills: bool
    const maxSamples: nat
    const hash: HashFunction
    var storage: Storage
    var runs: seq<RunMeta>
    var compactions: nat
    ghost var lists: seq<seq<Record>>
    /** Every (value, row) pair inserted so far. */
    ghost var contents: multiset<Record>

    ghost predicate Valid()
      reads this
    {
      Holding(storage, runs, lists, contents, kind, spills, hash)
    }

    constructor (kind: ValueKind, spills: bool, rowCountHint: Option<nat>, maxSamples: nat, hash: HashFunction)
      ensures Valid() && contents == multiset{}
      ensures this.kind == kind && this.spills == spills && this.maxSamples == maxSamples && this.hash == hash
    {
      this.kind, this.spills, this.maxSamples, this.hash := kind, spills, maxSamples, hash;
      storage, runs, compactions := EmptyStorage(kind, spills, rowCountHint), [], 0;
      lists, contents := [], multiset{};
    }

    /** On success exactly one record was added and at most thirty-two runs exist. */
    method Insert(v: OwnedValue, row: u64) returns (r: Result<()>)
      requires Valid()
      modifies this
      ensures r.Success? ==> Valid() && contents == old(contents) + multiset{Record(v, row)}
      ensures r.Success? ==> |runs| <= MAX_MERGE_FAN_IN
      ensures KindOf(v) != kind ==> r == Failure(Corrupt) && Valid() && contents == old(contents)
      ensures r.Failure? && r.error.Corrupt? ==> KindOf(v) != kind || Excusable(old(contents))
    {
      if KindOf(v) != kind {
        return Failure(Corrupt);
      }
      var ready, kept, merged;
      ghost var keptLists;
      r, ready, kept, keptLists, merged := MakeRoom(storage, runs, lists, contents, kind, spills, hash, v);
      storage, runs, lists, compactions := ready, kept, keptLists, compactions + merged;
      if r.Failure? {
        return;
      }
      var appended := Append(ready, v, row);
      if appended.Failure? {
        return Failure(appended.error);
      }
      MultisetSnoc(Buffered(ready), Record(v, row));
      PlusOne(multiset(Buffered(ready)), AllOf(keptLists), Record(v, row));
      storage, contents := appended.value, contents + multiset{Record(v, row)};
      r, kept, keptLists, merged := CompactIfNeeded(runs, lists, kind, hash);
    }

    /** `seal`: afterwards everything inserted lies in the sorted runs. */
    method Seal() returns (r: Result<()>)
      requires Valid()
      modifies this
      ensures !spills ==> r == Failure(Limit)
      ensures r.Success? ==> Valid() && contents == old(contents) && AllOf(lists) == contents
      ensures r.Success? ==> Buffered(storage) == [] && (runs == [] ==> contents == multiset{})
      ensures r.Failure? && r.error.Corrupt? ==> Excusable(old(contents))
    {
      var cancelled: bool := *;
      if cancelled || !spills {
        return Failure(Limit);
      }
      var emptied, kept, merged;
      ghost var keptLists;
      r, emptied, kept, keptLists, merged := SpillAndCompact(storage, runs, lists, contents, kind, hash);
      storage, runs, lists, compactions := emptied, kept, keptLists, compactions + merged;
    }

    /** The summary of a successful `finish` is a function of what was inserted, and of nothing else. */
    method Finish() returns (r: Result<ExactSummary>)
      requires Valid()
      modifies this
      ensures r.Success? ==> Summarizes(r.value, old(contents), maxSamples)
      ensures r.Failure? && r.error.Corrupt? ==> Excusable(old(contents))
    {
      if runs == [] {
        assert lists == [] && multiset(Buffered(storage)) == contents;
        match storage
        case FixedStore(_, segment, _) =>
          if segment.None? {
            EmptySummary(maxSamples);
            return Success(ExactSummary(0, 0, []));
          }
          assert Keys(segment.value.records, Itself) == segment.value.records;
          r := CountInMemory(segment.value.records, Itself, maxSamples);
        case ByteStore(segment, _) =>
          if segment.None? {
            EmptySummary(maxSamples);
            return Success(ExactSummary(0, 0, []));
          }
          r := CountInMemory(segment.value.records, Materialize(segment.value.arena), maxSamples);
        return;
      }
      var sealed := Seal();
      if sealed.Failure? {
        return Failure(sealed.error);
      }
      r := CountMerged(runs, lists, maxSamples, hash);
      if r.Failure? && r.error.Corrupt? {
        UnreadableExcuses(contents);
      }
    }
  }

  lemma EmptySummary(maxSamples: nat)
    ensures Summarizes(ExactSummary(0, 0, []), multiset{}, maxSamples)
  {
    assert multiset{} - multiset(Leaders(multiset{})) == multiset{};
  }

  // ----- schedules do not matter -----------------------------------------------------------------

  /** Two states of any shape, fed the same pairs in any order, agree wherever both succeed. */
  method SameRowsSameSummary(a: seq<Record>, b: seq<Record>, left: ExactState, right: ExactState)
    returns (ra: Result<ExactSummary>, rb: Result<ExactSummary>)
    requires left != right && left.Valid() && right.Valid() && left.maxSamples == right.maxSamples
    requires left.contents == right.contents == multiset{} && multiset(a) == multiset(b)
    modifies left, right
    ensures ra.Success? && rb.Success? ==> ra.value == rb.value
    ensures ra.Success? ==> ra.value.distinctCount + ra.value.duplicateCount == |a|
  {
    ra := Feed(left, a);
    rb := Feed(right, b);
    if ra.Success? && rb.Success? {
      SummaryDetermined(ra.value, rb.value, multiset(a), left.maxSamples);
    }
  }

  method Feed(state: ExactState, rows: seq<Record>) returns (r: Result<ExactSummary>)
    requires state.Valid() && state.contents == multiset{}
    modifies state
    ensures r.Success? ==> Summarizes(r.value, multiset(rows), state.maxSamples)
  {
    for i := 0 to |rows|
      invariant state.Valid() && state.contents == multiset(rows[..i])
    {
      var inserted := state.Insert(rows[i].value, rows[i].row);
      if inserted.Failure? {
        return Failure(inserted.error);
      }
      TakeOneMore([], rows, i);
      MultisetSnoc(rows[..i], rows[i]);
    }
    assert rows[..|rows|] == rows;
    r := state.Finish();
  }
}
