/**
 The k-way merge shared by compaction, the final count and the set operations: a heap holding the
 head of every run, refilled from bounded cursors.
 */
module Merge {
  import opened Bytes
  import opened Sorting
  import opened Records
  import opened RunFile

  /** A heap entry; ties are broken by run so that the order of entries is total. */
  datatype MergeEntry = MergeEntry(record: Record, run: nat)

  predicate EntryLeq(a: MergeEntry, b: MergeEntry) {
    if a.record == b.record then a.run <= b.run else RecordLeq(a.record, b.record)
  }

  lemma EntryOrder()
    ensures TotalOrder(EntryLeq)
  {
    RecordOrder();
  }

  // ----- several ascending streams as one multiset ---------------------------------------------

  ghost function AllOf(streams: seq<seq<Record>>): multiset<Record> {
    if streams == [] then multiset{} else multiset(streams[0]) + AllOf(streams[1..])
  }

  lemma {:induction false} AllOfUpdate(streams: seq<seq<Record>>, i: nat, s: seq<Record>)
    requires i < |streams|
    ensures AllOf(streams[i := s]) + multiset(streams[i]) == AllOf(streams) + multiset(s)
    decreases |streams|
  {
    UpdateTail(streams, i, s);
    if i > 0 {
      AllOfUpdate(streams[1..], i - 1, s);
      Regroup(multiset(streams[0]), AllOf(streams[1..][i - 1 := s]), multiset(streams[i]), AllOf(streams[1..]),
              multiset(s));
    }
  }

  lemma {:induction false} AllOfConcat(a: seq<seq<Record>>, b: seq<seq<Record>>)
    ensures AllOf(a + b) == AllOf(a) + AllOf(b)
  {
    if a == [] {
      assert a + b == b;
    } else {
      assert (a + b)[1..] == a[1..] + b;
      AllOfConcat(a[1..], b);
    }
  }

  lemma {:induction false} AllOfMember(streams: seq<seq<Record>>, r: Record)
    ensures r in AllOf(streams) <==> exists i :: 0 <= i < |streams| && r in streams[i]
  {
    if streams != [] {
      AllOfMember(streams[1..], r);
      if r in AllOf(streams[1..]) {
        var i :| 0 <= i < |streams[1..]| && r in streams[1..][i];
        assert r in streams[i + 1];
      }
      if i :| 0 <= i < |streams| && r in streams[i] {
        if i > 0 {
          assert r in streams[1..][i - 1];
        }
      }
    }
  }

  ghost function TotalBytes(streams: seq<seq<Record>>): nat {
    if streams == [] then 0 else |Payload(streams[0])| + TotalBytes(streams[1..])
  }

  lemma {:induction false} TotalBytesUpdate(streams: seq<seq<Record>>, i: nat, s: seq<Record>)
    requires i < |streams|
    ensures TotalBytes(streams[i := s]) + |Payload(streams[i])| == TotalBytes(streams) + |Payload(s)|
    decreases |streams|
  {
    UpdateTail(streams, i, s);
    if i > 0 {
      TotalBytesUpdate(streams[1..], i - 1, s);
    }
  }

  lemma {:induction false} PayloadConcat(a: seq<Record>, b: seq<Record>)
    ensures |Payload(a + b)| == |Payload(a)| + |Payload(b)|
  {
    if a == [] {
      assert a + b == b;
    } else {
      assert (a + b)[1..] == a[1..] + b;
      PayloadConcat(a[1..], b);
    }
  }

  /** The size of a payload does not depend on the order of its records. */
  lemma {:induction false} PayloadPermutes(s: seq<Record>, t: seq<Record>)
    requires multiset(s) == multiset(t)
    ensures |Payload(s)| == |Payload(t)|
    decreases |s|
  {
    if s == [] {
      assert |t| == |multiset(t)|;
    } else {
      assert s[0] in multiset(t);
      var i :| 0 <= i < |t| && t[i] == s[0];
      WithoutOne(t, i);
      assert s == [s[0]] + s[1..];
      PayloadPermutes(s[1..], t[..i] + t[i + 1..]);
    }
  }

  lemma WithoutOne(t: seq<Record>, i: nat)
    requires i < |t|
    ensures multiset(t[..i] + t[i + 1..]) == multiset(t) - multiset{t[i]}
    ensures |Payload(t)| == |RecordBytes(t[i])| + |Payload(t[..i] + t[i + 1..])|
  {
    assert t == t[..i] + ([t[i]] + t[i + 1..]);
    PayloadConcat(t[..i], [t[i]] + t[i + 1..]);
    PayloadConcat([t[i]], t[i + 1..]);
    PayloadConcat(t[..i], t[i + 1..]);
    assert [t[i]][1..] == [];
  }

  /** The bytes the records of a multiset take in a run. */
  ghost function PayloadSize(m: multiset<Record>): nat { |Payload(InOrder(m))| }

  lemma PayloadSizePlus(m: multiset<Record>, n: multiset<Record>)
    ensures PayloadSize(m + n) == PayloadSize(m) + PayloadSize(n)
  {
    PayloadPermutes(InOrder(m + n), InOrder(m) + InOrder(n));
    PayloadConcat(InOrder(m), InOrder(n));
  }

  lemma {:induction false} TotalBytesIsSize(streams: seq<seq<Record>>)
    ensures TotalBytes(streams) == PayloadSize(AllOf(streams))
    decreases |streams|
  {
    if streams == [] {
      assert |InOrder(multiset{})| == |multiset(InOrder(multiset{}))|;
    } else {
      TotalBytesIsSize(streams[1..]);
      PayloadSizePlus(multiset(streams[0]), AllOf(streams[1..]));
      PayloadPermutes(InOrder(multiset(streams[0])), streams[0]);
    }
  }

  function Tail<T>(s: seq<T>): seq<T> { if s == [] then [] else s[1..] }

  ghost function Heads(streams: seq<seq<Record>>): set<MergeEntry> {
    set i | 0 <= i < |streams| && streams[i] != [] :: MergeEntry(streams[i][0], i)
  }

  /** The least head is the least record of all the streams. */
  lemma LeastHead(streams: seq<seq<Record>>, entry: MergeEntry)
    requires forall i | 0 <= i < |streams| :: Ascending(streams[i])
    requires entry in Heads(streams) && forall e | e in Heads(streams) :: EntryLeq(entry, e)
    ensures Least(entry.record, AllOf(streams), RecordLeq)
  {
    RecordOrder();
    AllOfMember(streams, entry.record);
    forall y | y in AllOf(streams) ensures RecordLeq(entry.record, y) {
      AllOfMember(streams, y);
      var i :| 0 <= i < |streams| && y in streams[i];
      assert MergeEntry(streams[i][0], i) in Heads(streams);
      assert RecordLeq(streams[i][0], y);
    }
  }

  lemma NoHeads(streams: seq<seq<Record>>)
    requires Heads(streams) == {}
    ensures AllOf(streams) == multiset{} && TotalBytes(streams) == 0
  {
    forall i | 0 <= i < |streams| ensures streams[i] == [] {
      StreamHead(streams, i);
    }
    AllEmpty(streams);
  }

  lemma StreamHead(streams: seq<seq<Record>>, i: nat)
    requires i < |streams|
    ensures streams[i] != [] ==> MergeEntry(streams[i][0], i) in Heads(streams)
  {
  }

  lemma {:induction false} AllEmpty(streams: seq<seq<Record>>)
    requires forall i | 0 <= i < |streams| :: streams[i] == []
    ensures AllOf(streams) == multiset{} && TotalBytes(streams) == 0
  {
    if streams != [] {
      AllEmpty(streams[1..]);
    }
  }

  lemma {:induction false} LeastEntry(heap: set<MergeEntry>)
    requires heap != {}
    ensures exists e :: e in heap && forall f | f in heap :: EntryLeq(e, f)
  {
    EntryOrder();
    var m := multiset(heap);
    assert forall f :: f in m <==> f in heap;
    LeastExists(m, EntryLeq);
    var e :| Least(e, m, EntryLeq);
  }

  /** Removing the head of one stream. */
  ghost function Advance(streams: seq<seq<Record>>, i: nat): seq<seq<Record>>
    requires i < |streams| && streams[i] != []
  {
    streams[i := streams[i][1..]]
  }

  lemma AdvanceContents(streams: seq<seq<Record>>, i: nat)
    requires i < |streams| && streams[i] != []
    ensures AllOf(Advance(streams, i)) == AllOf(streams) - multiset{streams[i][0]}
    ensures TotalBytes(streams) == |RecordBytes(streams[i][0])| + TotalBytes(Advance(streams, i))
  {
    HeadOf(streams[i]);
    AllOfUpdate(streams, i, streams[i][1..]);
    Cancel(AllOf(Advance(streams, i)), multiset(streams[i][1..]), AllOf(streams), multiset{streams[i][0]});
    TotalBytesUpdate(streams, i, streams[i][1..]);
  }

  lemma AdvanceLeast(streams: seq<seq<Record>>, entry: MergeEntry)
    requires forall i | 0 <= i < |streams| :: Ascending(streams[i])
    requires entry in Heads(streams) && forall e | e in Heads(streams) :: EntryLeq(entry, e)
    ensures InOrder(AllOf(streams)) == [entry.record] + InOrder(AllOf(Advance(streams, entry.run)))
    ensures TotalBytes(streams) == |RecordBytes(entry.record)| + TotalBytes(Advance(streams, entry.run))
  {
    RecordOrder();
    LeastHead(streams, entry);
    AdvanceContents(streams, entry.run);
    SortedOfLeast(entry.record, AllOf(streams), RecordLeq);
  }

  /** The heads of every stream but one. */
  ghost function HeadsBut(streams: seq<seq<Record>>, run: nat): set<MergeEntry> {
    set i | 0 <= i < |streams| && i != run && streams[i] != [] :: MergeEntry(streams[i][0], i)
  }

  lemma PopHead(streams: seq<seq<Record>>, run: nat)
    requires run < |streams| && streams[run] != []
    ensures Heads(streams) - {MergeEntry(streams[run][0], run)} == HeadsBut(Advance(streams, run), run)
  {
    var after := Advance(streams, run);
    forall i | 0 <= i < |streams| && i != run ensures after[i] == streams[i] {
    }
  }

  lemma PushHead(streams: seq<seq<Record>>, run: nat)
    requires run < |streams|
    ensures Heads(streams) == HeadsBut(streams, run) + if streams[run] == [] then {}
            else {MergeEntry(streams[run][0], run)}
  {
  }

  // ----- the merge itself ----------------------------------------------------------------------

  ghost predicate AllStore(runs: seq<RunMeta>, lists: seq<seq<Record>>, hash: HashFunction) {
    |runs| == |lists| && forall i | 0 <= i < |runs| :: Stores(runs[i], lists[i], hash)
  }

  /** Each cursor stands just behind the head of its stream. */
  ghost predicate Aligned(cursors: seq<RunCursor>, streams: seq<seq<Record>>) {
    && |cursors| == |streams|
    && (forall i | 0 <= i < |streams| :: Ascending(streams[i]))
    && (forall i | 0 <= i < |streams| :: cursors[i].Holds(Tail(streams[i])))
  }

  /** Cursors and heap stand for a queue of records, in order, whose encodings take `bytes` bytes. */
  ghost predicate Delivers(cursors: seq<RunCursor>, heap: set<MergeEntry>, streams: seq<seq<Record>>,
                           queue: seq<Record>, bytes: nat) {
    && Aligned(cursors, streams)
    && heap == Heads(streams)
    && queue == InOrder(AllOf(streams))
    && bytes == TotalBytes(streams)
  }

  /** A pop takes the head off the queue; it fails only on a record the reader rejects. */
  ghost predicate Popped(r: Result<Option<Record>>, queue: seq<Record>, bytes: nat, left: seq<Record>, size: nat) {
    match r
    case Success(None) => queue == left == [] && bytes == 0
    case Success(Some(record)) => queue == [record] + left && bytes == |RecordBytes(record)| + size
    case Failure(error) => error.Corrupt? && !AllReadable(queue)
  }

  class MergeSource {
    var cursors: seq<RunCursor>
    var heap: set<MergeEntry>
    ghost var streams: seq<seq<Record>>
    ghost var queue: seq<Record>
    ghost var bytes: nat

    ghost predicate Valid()
      reads this
    {
      Delivers(cursors, heap, streams, queue, bytes)
    }

    constructor (cursors: seq<RunCursor>, heap: set<MergeEntry>, ghost streams: seq<seq<Record>>)
      requires Aligned(cursors, streams) && heap == Heads(streams)
      ensures Valid() && queue == InOrder(AllOf(streams)) && bytes == TotalBytes(streams)
    {
      this.cursors := cursors;
      this.heap := heap;
      this.streams := streams;
      this.queue := InOrder(AllOf(streams));
      this.bytes := TotalBytes(streams);
    }

    /** `heap.peek()`: the record that heads the queue. */
    method Peek() returns (r: Option<Record>)
      requires Valid()
      ensures r == if queue == [] then None else Some(queue[0])
    {
      if heap == {} {
        NoHeads(streams);
        return None;
      }
      var entry := LeastOf(heap, streams);
      r := Some(entry.record);
    }

    /** `heap.pop()` followed by refilling from the run the entry came from. */
    method Take() returns (r: Result<Option<Record>>)
      requires Valid()
      modifies this
      ensures r.Success? ==> Valid()
      ensures Popped(r, old(queue), old(bytes), queue, bytes)
    {
      var moved, refilled;
      ghost var ahead, left, size;
      r, moved, refilled, ahead, left, size := PopAndRefill(cursors, heap, streams, queue, bytes);
      Move(moved, refilled, ahead, left, size);
    }

    method Move(moved: seq<RunCursor>, refilled: set<MergeEntry>, ghost ahead: seq<seq<Record>>,
                ghost left: seq<Record>, ghost size: nat)
      modifies this
      ensures cursors == moved && heap == refilled && streams == ahead && queue == left && bytes == size
    {
      cursors, heap := moved, refilled;
      streams, queue, bytes := ahead, left, size;
    }
  }

  /** The least entry of a non-empty heap heads the queue. */
  method LeastOf(heap: set<MergeEntry>, ghost streams: seq<seq<Record>>) returns (entry: MergeEntry)
    requires heap == Heads(streams) && heap != {}
    requires forall i | 0 <= i < |streams| :: Ascending(streams[i])
    ensures entry in heap
    ensures InOrder(AllOf(streams)) == [entry.record] + InOrder(AllOf(Advance(streams, entry.run)))
    ensures TotalBytes(streams) == |RecordBytes(entry.record)| + TotalBytes(Advance(streams, entry.run))
  {
    LeastEntry(heap);
    entry :| entry in heap && forall e | e in heap :: EntryLeq(entry, e);
    AdvanceLeast(streams, entry);
  }

  method PopAndRefill(cursors: seq<RunCursor>, heap: set<MergeEntry>, ghost streams: seq<seq<Record>>,
                      ghost queue: seq<Record>, ghost bytes: nat)
    returns (r: Result<Option<Record>>, moved: seq<RunCursor>, refilled: set<MergeEntry>,
             ghost ahead: seq<seq<Record>>, ghost left: seq<Record>, ghost size: nat)
    requires Delivers(cursors, heap, streams, queue, bytes)
    ensures r.Success? ==> Delivers(moved, refilled, ahead, left, size)
    ensures Popped(r, queue, bytes, left, size)
  {
    moved, refilled, ahead, left, size := cursors, heap, streams, queue, bytes;
    if heap == {} {
      NoHeads(streams);
      r := Success(None);
      return;
    }
    var entry := LeastOf(heap, streams);
    var next, cursor := Refill(cursors, streams, entry);
    if next.Failure? {
      r := Failure(next.error);
      return;
    }
    var refill := if next.value.Some? then {MergeEntry(next.value.value, entry.run)} else {};
    moved, refilled, ahead := cursors[entry.run := cursor], heap - {entry} + refill, Advance(streams, entry.run);
    left, size := InOrder(AllOf(ahead)), TotalBytes(ahead);
    r := Success(Some(entry.record));
  }

  /** Read the record that replaces a popped entry. */
  method Refill(cursors: seq<RunCursor>, ghost streams: seq<seq<Record>>, entry: MergeEntry)
    returns (next: Result<Option<Record>>, cursor: RunCursor)
    requires Aligned(cursors, streams) && entry in Heads(streams)
    ensures next.Success? ==> Aligned(cursors[entry.run := cursor], Advance(streams, entry.run))
    ensures next.Success? ==>
              Heads(Advance(streams, entry.run)) ==
              Heads(streams) - {entry} + if next.value.Some? then {MergeEntry(next.value.value, entry.run)} else {}
    ensures next.Failure? ==> next.error.Corrupt? && !AllReadable(InOrder(AllOf(streams)))
  {
    var step := cursors[entry.run].Next();
    next, cursor := step.0, step.1;
    if next.Failure? {
      UnreadAhead(cursors, streams, entry);
    } else {
      AdvanceAligned(cursors, streams, entry);
      AdvanceHeads(cursors, streams, entry);
    }
  }

  lemma AdvanceAligned(cursors: seq<RunCursor>, streams: seq<seq<Record>>, entry: MergeEntry)
    requires Aligned(cursors, streams) && entry in Heads(streams) && cursors[entry.run].Next().0.Success?
    ensures Aligned(cursors[entry.run := cursors[entry.run].Next().1], Advance(streams, entry.run))
  {
    var run := entry.run;
    NextOf(cursors[run], Tail(streams[run]));
    forall i | 0 <= i < |streams| && i != run ensures cursors[i].Holds(Tail(Advance(streams, run)[i])) {
      assert Advance(streams, run)[i] == streams[i];
    }
  }

  /** The heap after the pop and the refill holds the heads of the advanced streams. */
  lemma AdvanceHeads(cursors: seq<RunCursor>, streams: seq<seq<Record>>, entry: MergeEntry)
    requires Aligned(cursors, streams) && entry in Heads(streams) && cursors[entry.run].Next().0.Success?
    ensures var next := cursors[entry.run].Next().0.value;
            Heads(Advance(streams, entry.run)) ==
            Heads(streams) - {entry} + if next.Some? then {MergeEntry(next.value, entry.run)} else {}
  {
    var run := entry.run;
    assert entry == MergeEntry(streams[run][0], run);
    NextOf(cursors[run], Tail(streams[run]));
    PopHead(streams, run);
    PushHead(Advance(streams, run), run);
  }

  lemma UnreadAhead(cursors: seq<RunCursor>, streams: seq<seq<Record>>, entry: MergeEntry)
    requires Aligned(cursors, streams) && entry in Heads(streams) && cursors[entry.run].Next().0.Failure?
    ensures cursors[entry.run].Next().0.error.Corrupt? && !AllReadable(InOrder(AllOf(streams)))
  {
    var run := entry.run;
    NextOf(cursors[run], Tail(streams[run]));
    AllOfMember(streams, streams[run][1]);
    assert streams[run][1] in multiset(InOrder(AllOf(streams)));
  }

  /** `open_merge_cursors`: one cursor per run, and the first record of each on the heap. */
  method OpenMerge(runs: seq<RunMeta>, ghost lists: seq<seq<Record>>, ghost hash: HashFunction)
    returns (r: Result<MergeSource>)
    requires AllStore(runs, lists, hash)
    ensures r.Success? ==>
            fresh(r.value) && r.value.Valid() && r.value.queue == InOrder(AllOf(lists)) &&
              r.value.bytes == TotalBytes(lists)
    ensures r.Failure? ==> r.error.Corrupt? && !AllReadable(InOrder(AllOf(lists)))
  {
    var cursors: seq<RunCursor>, heap := [], {};
    for run := 0 to |runs|
      invariant Aligned(cursors, lists[..run])
      invariant heap == Heads(lists[..run])
    {
      var opening := OpenRun(runs[run], lists[run], hash);
      assert opening.Success?;
      var (first, cursor) := opening.value.Next();
      if first.Failure? {
        FirstUnreadable(opening.value, lists, run);
        return Failure(Corrupt);
      }
      OpenAligned(cursors, opening.value, lists, run);
      OpenHeads(opening.value, lists, run);
      if first.value.Some? {
        heap := heap + {MergeEntry(first.value.value, run)};
      }
      cursors := cursors + [cursor];
    }
    assert lists[..|runs|] == lists;
    var source := new MergeSource(cursors, heap, lists);
    r := Success(source);
  }

  lemma FirstUnreadable(cursor: RunCursor, lists: seq<seq<Record>>, run: nat)
    requires run < |lists| && cursor.Holds(lists[run]) && cursor.Next().0.Failure?
    ensures !AllReadable(InOrder(AllOf(lists)))
  {
    NextOf(cursor, lists[run]);
    AllOfMember(lists, lists[run][0]);
    assert lists[run][0] in multiset(InOrder(AllOf(lists)));
  }

  lemma OpenAligned(cursors: seq<RunCursor>, cursor: RunCursor, lists: seq<seq<Record>>, run: nat)
    requires run < |lists| && Aligned(cursors, lists[..run]) && Ascending(lists[run])
    requires cursor.Holds(lists[run]) && cursor.Next().0.Success?
    ensures Aligned(cursors + [cursor.Next().1], lists[..run + 1])
  {
    NextOf(cursor, lists[run]);
    AlignedSnoc(cursors, lists[..run], cursor.Next().1, lists[run]);
    TakeOneMore([], lists, run);
  }

  lemma AlignedSnoc(cursors: seq<RunCursor>, lists: seq<seq<Record>>, cursor: RunCursor, s: seq<Record>)
    requires Aligned(cursors, lists) && Ascending(s) && cursor.Holds(Tail(s))
    ensures Aligned(cursors + [cursor], lists + [s])
  {
  }

  lemma OpenHeads(cursor: RunCursor, lists: seq<seq<Record>>, run: nat)
    requires run < |lists| && cursor.Holds(lists[run]) && cursor.Next().0.Success?
    ensures var first := cursor.Next().0.value;
            Heads(lists[..run + 1]) == Heads(lists[..run]) + if first.Some? then {MergeEntry(first.value, run)} else {}
  {
    NextOf(cursor, lists[run]);
    HeadsSnoc(lists[..run], lists[run]);
    assert lists[..run + 1] == lists[..run] + [lists[run]];
  }

  lemma HeadsSnoc(lists: seq<seq<Record>>, s: seq<Record>)
    ensures Heads(lists + [s]) == Heads(lists) + if s == [] then {} else {MergeEntry(s[0], |lists|)}
  {
    var all := lists + [s];
    var added := if s == [] then {} else {MergeEntry(s[0], |lists|)};
    forall e | e in Heads(lists) ensures e in Heads(all) {
      assert all[e.run] == lists[e.run];
    }
    forall e | e in Heads(all) ensures e in Heads(lists) + added {
      var i :| 0 <= i < |all| && all[i] != [] && e == MergeEntry(all[i][0], i);
      if i < |lists| {
        assert lists[i] == all[i];
      }
    }
    if s != [] {
      assert all[|lists|] == s;
    }
  }
}
