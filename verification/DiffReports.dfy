/**
 The accumulator of a diff: exact counts, and bounded samples that are the smallest display keys
 whatever order the events arrive in.
 */
module DiffReports {
  import opened Bytes
  import opened Sorting
  import opened Records
  import opened Summary
  import opened ExactState

  type DisplayKey = seq<byte>

  datatype ChangedRow = ChangedRow(key: DisplayKey, columns: seq<string>)

  datatype DiffEvent = AddedEvent(key: DisplayKey) | RemovedEvent(key: DisplayKey) | ChangedEvent(key: DisplayKey,
    columns: seq<string>)

  datatype DiffReport = DiffReport(
    beforeRows: nat, afterRows: nat, addedCount: nat, removedCount: nat, changedCount: nat,
    addedKeys: seq<DisplayKey>, removedKeys: seq<DisplayKey>, changed: seq<ChangedRow>, truncated: bool)

  // ----- smallest samples ------------------------------------------------------------------------------

  ghost function LeastKey(m: multiset<DisplayKey>): DisplayKey
    requires m != multiset{}
  {
    LexOrder();
    LeastExists(m, LexLeq);
    var x :| Least(x, m, LexLeq);
    x
  }

  /** The `limit` smallest elements of a multiset of keys, in order. */
  ghost function Smallest(m: multiset<DisplayKey>, limit: nat): seq<DisplayKey>
    decreases limit
  {
    if limit == 0 || m == multiset{} then [] else [LeastKey(m)] + Smallest(m - multiset{LeastKey(m)}, limit - 1)
  }

  lemma LeastKeyLeads(m: multiset<DisplayKey>)
    requires m != multiset{}
    ensures TotalOrder(LexLeq) && SortedOf(m, LexLeq) == [LeastKey(m)] + SortedOf(m - multiset{LeastKey(m)}, LexLeq)
  {
    LexOrder();
    LeastExists(m, LexLeq);
    SortedOfLeast(LeastKey(m), m, LexLeq);
  }

  lemma TakeCons<T>(x: T, s: seq<T>, n: nat)
    requires n > 0
    ensures Take([x] + s, n) == [x] + Take(s, n - 1)
  {
  }

  /** That is the head of the sorted arrangement. */
  lemma {:induction false} SmallestIsPrefix(m: multiset<DisplayKey>, limit: nat)
    ensures TotalOrder(LexLeq) && Smallest(m, limit) == Take(SortedOf(m, LexLeq), limit)
    decreases limit
  {
    LexOrder();
    if limit > 0 && m != multiset{} {
      var x := LeastKey(m);
      LeastKeyLeads(m);
      SmallestIsPrefix(m - multiset{x}, limit - 1);
      TakeCons(x, SortedOf(m - multiset{x}, LexLeq), limit);
    }
  }

  predicate LexLess(a: DisplayKey, b: DisplayKey) { LexLeq(a, b) && a != b }

  /** Where `binary_search` may put a key: nothing larger before it, nothing smaller after it. */
  predicate FitsAt(s: seq<DisplayKey>, v: DisplayKey, position: nat) {
    && position <= |s|
    && (forall i | 0 <= i < position :: LexLeq(s[i], v))
    && (forall i | position <= i < |s| :: LexLeq(v, s[i]))
  }

  lemma {:induction false} PositionExists(s: seq<DisplayKey>, v: DisplayKey)
    requires Sorted(s, LexLeq)
    ensures exists position: nat :: FitsAt(s, v, position)
    decreases |s|
  {
    if s == [] {
      assert FitsAt(s, v, 0);
    } else {
      var n := |s| - 1;
      LexTotal(s[n], v);
      if LexLeq(s[n], v) {
        forall i | 0 <= i < n ensures LexLeq(s[i], v) {
          LexTransitive(s[i], s[n], v);
        }
        assert FitsAt(s, v, |s|);
      } else {
        PositionExists(s[..n], v);
        var position: nat :| FitsAt(s[..n], v, position);
        assert forall i | 0 <= i < n :: s[..n][i] == s[i];
        assert FitsAt(s, v, position);
      }
    }
  }

  function InsertAt<T>(s: seq<T>, position: nat, v: T): (r: seq<T>)
    requires position <= |s|
    ensures |r| == |s| + 1
  {
    s[..position] + [v] + s[position..]
  }

  lemma InsertContents<T>(s: seq<T>, position: nat, v: T)
    requires position <= |s|
    ensures multiset(InsertAt(s, position, v)) == multiset(s) + multiset{v}
  {
    assert s == s[..position] + s[position..];
  }

  lemma InsertSorted(s: seq<DisplayKey>, position: nat, v: DisplayKey)
    requires Sorted(s, LexLeq) && FitsAt(s, v, position)
    ensures Sorted(InsertAt(s, position, v), LexLeq)
  {
    var r := InsertAt(s, position, v);
    forall i, j | 0 <= i < j < |r| ensures LexLeq(r[i], r[j]) {
      if i < position && j > position {
        assert r[i] == s[i] && r[j] == s[j - 1];
      } else if i > position {
        assert r[i] == s[i - 1] && r[j] == s[j - 1];
      } else if j < position {
        assert r[i] == s[i] && r[j] == s[j];
      }
    }
  }

  lemma PrefixSorted<T>(s: seq<T>, leq: Order<T>, n: nat)
    requires Sorted(s, leq) && n <= |s|
    ensures Sorted(s[..n], leq)
  {
  }

  lemma InsertIntoSorted(m: multiset<DisplayKey>, v: DisplayKey, position: nat)
    requires TotalOrder(LexLeq) && FitsAt(SortedOf(m, LexLeq), v, position)
    ensures SortedOf(m + multiset{v}, LexLeq) == InsertAt(SortedOf(m, LexLeq), position, v)
  {
    var s := SortedOf(m, LexLeq);
    InsertSorted(s, position, v);
    InsertContents(s, position, v);
    SortedIs(InsertAt(s, position, v), LexLeq);
  }

  /** A position in a prefix is one in the whole, or the whole has one at or past the prefix's end. */
  lemma PositionInWhole(s: seq<DisplayKey>, v: DisplayKey, n: nat, position: nat)
    requires Sorted(s, LexLeq) && n <= |s| && FitsAt(s[..n], v, position)
    ensures position < n ==> FitsAt(s, v, position)
    ensures position == n ==> exists p: nat :: n <= p && FitsAt(s, v, p)
  {
    var kept := s[..n];
    if position < n {
      forall i | position <= i < |s| ensures LexLeq(v, s[i]) {
        assert LexLeq(v, kept[position]) && kept[position] == s[position];
        if i > position {
          LexTransitive(v, s[position], s[i]);
        }
      }
      assert forall i | 0 <= i < position :: s[i] == kept[i];
    } else {
      SuffixSorted(s, n);
      PositionExists(s[n..], v);
      var q: nat :| FitsAt(s[n..], v, q);
      forall i | 0 <= i < n + q ensures LexLeq(s[i], v) {
        assert i < n ==> s[i] == kept[i];
        assert i >= n ==> s[i] == s[n..][i - n];
      }
      forall i | n + q <= i < |s| ensures LexLeq(v, s[i]) {
        assert s[i] == s[n..][i - n];
      }
      assert FitsAt(s, v, n + q);
    }
  }

  lemma SuffixSorted(s: seq<DisplayKey>, n: nat)
    requires Sorted(s, LexLeq) && n <= |s|
    ensures Sorted(s[n..], LexLeq)
  {
  }

  lemma TakeOfInsert(s: seq<DisplayKey>, v: DisplayKey, position: nat, p: nat, limit: nat)
    requires p <= |s| && position <= |Take(s, limit)|
    requires if position < |Take(s, limit)| || |s| <= limit then p == position else p >= limit
    ensures Take(InsertAt(s, p, v), limit) == Take(InsertAt(Take(s, limit), position, v), limit)
  {
    var kept := Take(s, limit);
    var whole, short := InsertAt(s, p, v), InsertAt(kept, position, v);
    forall i | 0 <= i < |whole| && i < limit ensures i < |short| && whole[i] == short[i] {
      assert i < p ==> whole[i] == s[i];
      assert i > p ==> whole[i] == s[i - 1];
      assert i < position ==> short[i] == kept[i];
      assert position < i < |short| ==> short[i] == kept[i - 1];
    }
  }

  /** A retained sample, one more event, and the samples that must be retained then. */
  lemma RetainSmallest(m: multiset<DisplayKey>, v: DisplayKey, position: nat, limit: nat)
    requires FitsAt(Smallest(m, limit), v, position)
    ensures Smallest(m + multiset{v}, limit) == Take(InsertAt(Smallest(m, limit), position, v), limit)
  {
    SmallestIsPrefix(m, limit);
    SmallestIsPrefix(m + multiset{v}, limit);
    RetainPrefix(SortedOf(m, LexLeq), SortedOf(m + multiset{v}, LexLeq), m, v, position, limit);
  }

  lemma RetainPrefix(s: seq<DisplayKey>, t: seq<DisplayKey>, m: multiset<DisplayKey>, v: DisplayKey, position: nat,
                     limit: nat)
    requires TotalOrder(LexLeq) && s == SortedOf(m, LexLeq) && t == SortedOf(m + multiset{v}, LexLeq)
    requires FitsAt(Take(s, limit), v, position)
    ensures Take(t, limit) == Take(InsertAt(Take(s, limit), position, v), limit)
  {
    var p := WholePosition(s, v, position, limit);
    InsertIntoSorted(m, v, p);
  }

  lemma WholePosition(s: seq<DisplayKey>, v: DisplayKey, position: nat, limit: nat) returns (p: nat)
    requires Sorted(s, LexLeq) && FitsAt(Take(s, limit), v, position)
    ensures FitsAt(s, v, p) && Take(InsertAt(s, p, v), limit) == Take(InsertAt(Take(s, limit), position, v), limit)
  {
    var n := |Take(s, limit)|;
    assert Take(s, limit) == s[..n];
    PositionInWhole(s, v, n, position);
    p := position;
    if position == n {
      p :| n <= p && FitsAt(s, v, p);
    }
    TakeOfInsert(s, v, position, p, limit);
  }

  lemma SmallestIsSorted(m: multiset<DisplayKey>, limit: nat)
    ensures Sorted(Smallest(m, limit), LexLeq) && |Smallest(m, limit)| <= limit
  {
    SmallestIsPrefix(m, limit);
    PrefixSorted(SortedOf(m, LexLeq), LexLeq, |Smallest(m, limit)|);
  }

  lemma SmallestCount(m: multiset<DisplayKey>, limit: nat)
    ensures |Smallest(m, limit)| == if |m| <= limit then |m| else limit
  {
    SmallestIsPrefix(m, limit);
    assert |SortedOf(m, LexLeq)| == |multiset(SortedOf(m, LexLeq))|;
  }

  /** A choice of samples for every collection of events, known only by how it grows. */
  type Sampler = (multiset<DisplayKey>, nat) -> seq<DisplayKey>

  ghost predicate Lawful(pick: Sampler) {
    && (forall m, limit {:trigger pick(m, limit)} ::
          Sorted(pick(m, limit), LexLeq) && |pick(m, limit)| == if |m| <= limit then |m| else limit)
    && (forall m, limit, v, position {:trigger pick(m, limit), FitsAt(pick(m, limit), v, position)} ::
          FitsAt(pick(m, limit), v, position) ==>
            pick(m + multiset{v}, limit) == Take(InsertAt(pick(m, limit), position, v), limit))
  }

  lemma SmallestIsLawful()
    ensures Lawful(Smallest)
  {
    forall m, limit ensures Sorted(Smallest(m, limit), LexLeq) && |Smallest(m, limit)| == if |m| <= limit then |m|
      else limit {
      SmallestIsSorted(m, limit);
      SmallestCount(m, limit);
    }
    forall m, limit, v, position | FitsAt(Smallest(m, limit), v, position)
      ensures Smallest(m + multiset{v}, limit) == Take(InsertAt(Smallest(m, limit), position, v), limit)
    {
      RetainSmallest(m, v, position, limit);
    }
  }

  /** Samples that grow lawfully from nothing are the smallest keys, in whatever order the events came. */
  lemma {:induction false} LawfulIsSmallest(pick: Sampler, m: multiset<DisplayKey>, limit: nat)
    requires Lawful(pick)
    ensures pick(m, limit) == Smallest(m, limit)
    decreases |m|
  {
    if m == multiset{} {
      assert pick(m, limit) == [];
    } else {
      var v :| v in m;
      var rest := m - multiset{v};
      LawfulIsSmallest(pick, rest, limit);
      PositionExists(pick(rest, limit), v);
      var position: nat :| FitsAt(pick(rest, limit), v, position);
      RetainSmallest(rest, v, position, limit);
      assert rest + multiset{v} == m;
    }
  }

  lemma FitsAtEnd(s: seq<DisplayKey>, v: DisplayKey)
    requires Sorted(s, LexLeq) && (s != [] ==> LexLeq(s[|s| - 1], v))
    ensures FitsAt(s, v, |s|)
  {
    forall i | 0 <= i < |s| ensures LexLeq(s[i], v) {
      if i < |s| - 1 {
        LexTransitive(s[i], s[|s| - 1], v);
      }
    }
  }

  lemma TakeAllBut<T>(s: seq<T>, v: T)
    ensures Take(InsertAt(s, |s|, v), |s|) == s
  {
  }

  /** When a full sample ends at or below a key, one more event with that key changes nothing. */
  lemma KeepSample(pick: Sampler, m: multiset<DisplayKey>, v: DisplayKey, limit: nat)
    requires Lawful(pick) && |pick(m, limit)| == limit && (limit > 0 ==> LexLeq(pick(m, limit)[limit - 1], v))
    ensures pick(m + multiset{v}, limit) == pick(m, limit)
  {
    var s := pick(m, limit);
    FitsAtEnd(s, v);
    assert FitsAt(pick(m, limit), v, limit);
    TakeAllBut(s, v);
  }

  // ----- retaining ---------------------------------------------------------------------------------------

  /** The bytes a sample is charged for. */
  type Cost<!T> = T -> nat

  function SameKey(k: DisplayKey): DisplayKey { k }

  function RowKey(r: ChangedRow): DisplayKey { r.key }

  /** Samples of the events so far: their keys are the ones to pick, and each reservation belongs to its sample. */
  ghost predicate Samples<T(!new)>(samples: seq<T>, reservations: seq<nat>, dropped: multiset<T>, events: multiset<T>,
                                   keys: multiset<DisplayKey>,
                                   key: T -> DisplayKey, cost: Cost<T>, limit: nat, pick: Sampler) {
    && Lawful(pick) && Keys(samples, key) == pick(keys, limit)
    && events == multiset(samples) + dropped
    && reservations == Keys(samples, cost)
  }

  /** `should_retain_string` and `should_retain_changed`. */
  predicate ShouldRetain(keys: seq<DisplayKey>, v: DisplayKey, limit: nat) {
    limit != 0 && (|keys| < limit || (keys != [] && LexLess(v, keys[|keys| - 1])))
  }

  /** Inserted in order, and cut back to the limit. */
  function Inserted<T>(s: seq<T>, position: nat, v: T, limit: nat): (r: seq<T>)
    requires position <= |s|
  {
    var grown := InsertAt(s, position, v);
    if |grown| > limit then grown[..|grown| - 1] else grown
  }

  lemma InsertedKeys<T(!new), K(!new)>(s: seq<T>, position: nat, v: T, limit: nat, key: T -> K)
    requires position <= |s| <= limit
    ensures Keys(Inserted(s, position, v, limit), key) == Inserted(Keys(s, key), position, key(v), limit)
  {
    KeysOfInsert(s, position, v, key);
    var grown := InsertAt(s, position, v);
    KeysOfPrefix(grown, |grown| - 1, key);
  }

  lemma KeysOfInsert<T(!new), K(!new)>(s: seq<T>, position: nat, v: T, key: T -> K)
    requires position <= |s|
    ensures Keys(InsertAt(s, position, v), key) == InsertAt(Keys(s, key), position, key(v))
  {
  }

  lemma KeysOfPrefix<T(!new), K(!new)>(s: seq<T>, n: nat, key: T -> K)
    requires n <= |s|
    ensures Keys(s[..n], key) == Keys(s, key)[..n]
  {
  }

  lemma InsertedIsTake<K>(s: seq<K>, position: nat, v: K, limit: nat)
    requires position <= |s| <= limit
    ensures Inserted(s, position, v, limit) == Take(InsertAt(s, position, v), limit)
  {
  }

  /** What an insertion pushes out. */
  ghost function Popped<T>(s: seq<T>, position: nat, v: T, limit: nat): multiset<T>
    requires position <= |s|
  {
    var grown := InsertAt(s, position, v);
    if |grown| > limit then multiset{grown[|grown| - 1]} else multiset{}
  }

  lemma InsertedContents<T>(s: seq<T>, position: nat, v: T, limit: nat)
    requires position <= |s|
    ensures multiset(Inserted(s, position, v, limit)) + Popped(s, position, v, limit) == multiset(s) + multiset{v}
  {
    var grown := InsertAt(s, position, v);
    InsertContents(s, position, v);
    assert grown == grown[..|grown| - 1] + [grown[|grown| - 1]];
  }

  lemma MoveAside<T>(kept: multiset<T>, popped: multiset<T>, samples: multiset<T>, v: multiset<T>, dropped: multiset<T>)
    requires kept + popped == samples + v
    ensures (samples + dropped) + v == kept + (dropped + popped)
  {
    assert (samples + dropped) + v == (samples + v) + dropped;
    assert kept + (dropped + popped) == (kept + popped) + dropped;
  }

  /** `retain_string` and `retain_changed`: insert in order, then drop the last one past the limit. */
  method Retain<T(==,!new)>(samples: seq<T>, reservations: seq<nat>, value: T, reservation: nat, limit: nat,
                            key: T -> DisplayKey,
                         ghost dropped: multiset<T>, ghost events: multiset<T>, ghost keys: multiset<DisplayKey>,
                           ghost cost: Cost<T>, ghost pick: Sampler)
    returns (retained: seq<T>, reserved: seq<nat>, ghost out: multiset<T>)
    requires Samples(samples, reservations, dropped, events, keys, key, cost, limit, pick) && reservation == cost(value)
    ensures Samples(retained, reserved, out, events + multiset{value}, keys + multiset{key(value)}, key, cost, limit,
                    pick)
  {
    PositionExists(Keys(samples, key), key(value));
    var position: nat :| position <= |samples| && FitsAt(Keys(samples, key), key(value), position);
    assert FitsAt(pick(keys, limit), key(value), position);
    InsertedKeys(samples, position, value, limit, key);
    InsertedKeys(samples, position, value, limit, cost);
    InsertedIsTake(Keys(samples, key), position, key(value), limit);
    InsertedContents(samples, position, value, limit);
    retained, reserved := Inserted(samples, position, value, limit), Inserted(reservations, position, reservation,
      limit);
    out := dropped + Popped(samples, position, value, limit);
    MoveAside(multiset(retained), Popped(samples, position, value, limit), multiset(samples), multiset{value}, dropped);
  }

  /** With distinct keys among the events, the retained rows themselves are determined. */
  lemma SamplesDetermined<T(!new)>(a: seq<T>, b: seq<T>, events: multiset<T>, keys: multiset<DisplayKey>,
                                   key: T -> DisplayKey, limit: nat)
    requires Keys(a, key) == Keys(b, key) == Smallest(keys, limit) && multiset(a) <= events && multiset(b) <= events
    requires forall x, y | x in events && y in events && key(x) == key(y) :: x == y
    ensures a == b
  {
    assert |a| == |Keys(a, key)| && |b| == |Keys(b, key)|;
    forall i | 0 <= i < |a| ensures a[i] == b[i] {
      assert a[i] in multiset(a) && b[i] in multiset(b);
      assert key(a[i]) == Keys(a, key)[i] && key(b[i]) == Keys(b, key)[i];
    }
  }

  /** One event offered to a sample: retained when it belongs among the smallest, if its memory is granted. */
  method Offer<T(==,!new)>(samples: seq<T>, reservations: seq<nat>, value: T, limit: nat, key: T -> DisplayKey,
                           cost: Cost<T>,
                        ghost dropped: multiset<T>, ghost events: multiset<T>, ghost keys: multiset<DisplayKey>,
                          ghost pick: Sampler)
    returns (granted: bool, retained: seq<T>, reserved: seq<nat>, ghost out: multiset<T>)
    requires Samples(samples, reservations, dropped, events, keys, key, cost, limit, pick)
    ensures granted ==> Samples(retained, reserved, out, events + multiset{value}, keys + multiset{key(value)}, key,
                                cost, limit, pick)
    ensures !ShouldRetain(Keys(samples, key), key(value), limit) ==>
            granted && retained == samples && reserved == reservations
  {
    granted, retained, reserved, out := true, samples, reservations, dropped;
    if ShouldRetain(Keys(samples, key), key(value), limit) {
      granted := Reserve();
      if !granted {
        return;
      }
      retained, reserved, out := Retain(samples, reservations, value, cost(value), limit, key, dropped, events, keys,
                                        cost, pick);
    } else {
      if limit > 0 {
        LexTotal(Keys(samples, key)[limit - 1], key(value));
      }
      KeepSample(pick, keys, key(value), limit);
      out := dropped + multiset{value};
      MoveAside(multiset(samples), multiset{value}, multiset(samples), multiset{value}, dropped);
    }
  }

  /** The count, samples and reservations of one kind of event. */
  datatype Bucket<T> = Bucket(count: nat, samples: seq<T>, memory: seq<nat>)

  /** A bucket after the events of `log`, in whatever order they came. */
  ghost predicate Holds<T(!new)>(b: Bucket<T>, log: seq<T>, dropped: multiset<T>, key: T -> DisplayKey, cost: Cost<T>,
                                 limit: nat, pick: Sampler) {
    b.count == |log| && Samples(b.samples, b.memory, dropped, multiset(log), multiset(Keys(log, key)), key, cost, limit,
                                pick)
  }

  function EmptyBucket<T>(): Bucket<T> { Bucket(0, [], []) }

  lemma EmptyHolds<T(!new)>(key: T -> DisplayKey, cost: Cost<T>, limit: nat, pick: Sampler)
    requires Lawful(pick)
    ensures Holds(EmptyBucket<T>(), [], multiset{}, key, cost, limit, pick)
  {
    assert Keys([], key) == [];
    assert |pick(multiset{}, limit)| == 0;
  }

  method Count<T(==,!new)>(b: Bucket<T>, value: T, limit: nat, key: T -> DisplayKey, cost: Cost<T>, ghost log: seq<T>,
                           ghost dropped: multiset<T>, ghost pick: Sampler)
    returns (granted: bool, counted: Bucket<T>, ghost out: multiset<T>)
    requires Holds(b, log, dropped, key, cost, limit, pick)
    ensures granted ==> Holds(counted, log + [value], out, key, cost, limit, pick)
  {
    var retained, reserved;
    granted, retained, reserved, out := Offer(b.samples, b.memory, value, limit, key, cost, dropped, multiset(log),
                                              multiset(Keys(log, key)), pick);
    counted := Bucket(b.count + 1, retained, reserved);
    MultisetSnoc(log, value);
    KeysSnoc(log, value, key);
    MultisetSnoc(Keys(log, key), key(value));
  }

  // ----- the accumulator -----------------------------------------------------------------------------------

  /** The events of each kind, in order of arrival, and those among them that are not retained. */
  datatype Log = Log(added: seq<DisplayKey>, removed: seq<DisplayKey>, changed: seq<ChangedRow>,
                     addedDropped: multiset<DisplayKey>, removedDropped: multiset<DisplayKey>,
                       changedDropped: multiset<ChangedRow>)

  class Accumulator {
    const beforeRows: nat
    const afterRows: nat
    const sampleLimit: nat
    const output: bool
    const outputLimit: nat
    const keyCost: Cost<DisplayKey>
    const rowCost: Cost<ChangedRow>
    var added: Bucket<DisplayKey>
    var removed: Bucket<DisplayKey>
    var changed: Bucket<ChangedRow>
    var sink: Option<seq<DiffEvent>>
    var outputRecords: nat
    ghost const pick: Sampler
    ghost var log: Log

    ghost predicate Valid()
      reads this
    {
      && Holds(added, log.added, log.addedDropped, SameKey, keyCost, sampleLimit, pick)
      && Holds(removed, log.removed, log.removedDropped, SameKey, keyCost, sampleLimit, pick)
      && Holds(changed, log.changed, log.changedDropped, RowKey, rowCost, sampleLimit, pick)
      && (sink.Some? <==> output)
      && (sink.Some? ==> |sink.value| == outputRecords == added.count + removed.count + changed.count <= outputLimit)
    }

    constructor (beforeRows: nat, afterRows: nat, sampleLimit: nat, output: bool, outputLimit: nat,
                 keyCost: Cost<DisplayKey>, rowCost: Cost<ChangedRow>)
      ensures Valid() && log.added == [] && log.removed == [] && log.changed == []
      ensures this.beforeRows == beforeRows && this.afterRows == afterRows && this.sampleLimit == sampleLimit &&
              this.output == output
    {
      this.beforeRows, this.afterRows, this.sampleLimit, this.outputLimit :=
        beforeRows, afterRows, sampleLimit, outputLimit;
      this.output, this.keyCost, this.rowCost, outputRecords := output, keyCost, rowCost, 0;
      added, removed, changed := EmptyBucket(), EmptyBucket(), EmptyBucket();
      sink := if output then Some([]) else None;
      log := Log([], [], [], multiset{}, multiset{}, multiset{});
      pick := Smallest;
      SmallestIsLawful();
      EmptyHolds(SameKey, keyCost, sampleLimit, Smallest);
      EmptyHolds(RowKey, rowCost, sampleLimit, Smallest);
    }

    predicate NeedsChangedDetail()
      reads this
    {
      sink.Some? || sampleLimit != 0
    }

    /** With a sink, one output record per event, up to the output limit. */
    method Emit(event: DiffEvent) returns (r: Result<()>, ghost refused: bool)
      modifies this`sink, this`outputRecords
      ensures old(sink).None? ==> r.Success? && sink.None? && outputRecords == old(outputRecords)
      ensures old(sink).Some? && r.Success? ==>
              old(outputRecords) < outputLimit && sink == Some(old(sink).value + [event])
      ensures old(sink).Some? && r.Success? ==> outputRecords == old(outputRecords) + 1
      ensures old(sink).Some? && old(outputRecords) >= outputLimit ==> r == Failure(Limit)
      ensures r.Failure? ==> r.error.Limit? && (refused || old(outputRecords) >= outputLimit)
    {
      refused := false;
      if sink.None? {
        return Success(()), refused;
      }
      if outputRecords >= outputLimit {
        return Failure(Limit), refused;
      }
      var written := Reserve();
      if !written {
        refused := true;
        return Failure(Limit), refused;
      }
      sink, outputRecords := Some(sink.value + [event]), outputRecords + 1;
      r := Success(());
    }

    method Added(key: DisplayKey) returns (r: Result<()>)
      requires Valid()
      modifies this
      ensures r.Success? ==>
              sink == if old(sink).Some? then Some(old(sink).value + [AddedEvent(key)]) else None
      ensures r.Failure? ==> r.error.Limit?
      ensures r.Success? ==>
              Valid() && log.added == old(log.added) + [key] && log.removed == old(log.removed) &&
                log.changed == old(log.changed)
    {
      ghost var refused;
      r, refused := Emit(AddedEvent(key));
      if r.Failure? {
        return;
      }
      var granted, counted;
      ghost var out;
      granted, counted, out := Count(added, key, sampleLimit, SameKey, keyCost, log.added, log.addedDropped, pick);
      if !granted {
        return Failure(Limit);
      }
      added, log := counted, log.(added := log.added + [key], addedDropped := out);
    }

    method Removed(key: DisplayKey) returns (r: Result<()>)
      requires Valid()
      modifies this
      ensures r.Success? ==>
              sink == if old(sink).Some? then Some(old(sink).value + [RemovedEvent(key)]) else None
      ensures r.Failure? ==> r.error.Limit?
      ensures r.Success? ==>
              Valid() && log.removed == old(log.removed) + [key] && log.added == old(log.added) &&
                log.changed == old(log.changed)
    {
      ghost var refused;
      r, refused := Emit(RemovedEvent(key));
      if r.Failure? {
        return;
      }
      var granted, counted;
      ghost var out;
      granted, counted, out := Count(removed, key, sampleLimit, SameKey, keyCost, log.removed, log.removedDropped,
                                     pick);
      if !granted {
        return Failure(Limit);
      }
      removed, log := counted, log.(removed := log.removed + [key], removedDropped := out);
    }

    method Changed(key: DisplayKey, columns: seq<string>) returns (r: Result<()>)
      requires Valid()
      modifies this
      ensures r.Success? ==>
              sink == if old(sink).Some? then Some(old(sink).value + [ChangedEvent(key, columns)]) else None
      ensures r.Failure? ==> r.error.Limit?
      ensures r.Success? ==> Valid() && log.changed == old(log.changed) + [ChangedRow(key, columns)]
      ensures r.Success? ==> log.added == old(log.added) && log.removed == old(log.removed)
    {
      ghost var refused;
      r, refused := Emit(ChangedEvent(key, columns));
      if r.Failure? {
        return;
      }
      var row := ChangedRow(key, columns);
      var granted, counted;
      ghost var out;
      granted, counted, out := Count(changed, row, sampleLimit, RowKey, rowCost, log.changed, log.changedDropped, pick);
      if !granted {
        return Failure(Limit);
      }
      changed, log := counted, log.(changed := log.changed + [row], changedDropped := out);
    }

    /** The report, truncated exactly when an event of some kind was counted but not retained. */
    method Finish() returns (report: DiffReport)
      requires Valid()
      ensures Reports(report, beforeRows, afterRows, multiset(log.added), multiset(log.removed), multiset(log.changed),
                      multiset(Keys(log.changed, RowKey)), sampleLimit)
    {
      Retained(added, log.added, log.addedDropped, SameKey, keyCost, sampleLimit, pick);
      Retained(removed, log.removed, log.removedDropped, SameKey, keyCost, sampleLimit, pick);
      Retained(changed, log.changed, log.changedDropped, RowKey, rowCost, sampleLimit, pick);
      LawfulIsSmallest(pick, multiset(log.added), sampleLimit);
      LawfulIsSmallest(pick, multiset(log.removed), sampleLimit);
      LawfulIsSmallest(pick, multiset(Keys(log.changed, RowKey)), sampleLimit);
      KeysOfKeys(added.samples);
      KeysOfKeys(removed.samples);
      KeysOfKeys(log.added);
      KeysOfKeys(log.removed);
      var retained := |added.samples| + |removed.samples| + |changed.samples|;
      var total := added.count + removed.count + changed.count;
      report := DiffReport(beforeRows, afterRows, added.count, removed.count, changed.count,
                           added.samples, removed.samples, changed.samples, total > retained);
    }
  }

  lemma KeysOfKeys(s: seq<DisplayKey>)
    ensures Keys(s, SameKey) == s
  {
  }

  lemma Retained<T(!new)>(b: Bucket<T>, log: seq<T>, dropped: multiset<T>, key: T -> DisplayKey, cost: Cost<T>,
                          limit: nat, pick: Sampler)
    requires Holds(b, log, dropped, key, cost, limit, pick)
    ensures |b.samples| == if b.count <= limit then b.count else limit
    ensures b.count == |multiset(log)| == |multiset(Keys(log, key))|
  {
    assert |b.samples| == |Keys(b.samples, key)|;
  }

  /** What a report says about the events, none of it depending on their order. */
  ghost predicate Reports(report: DiffReport, beforeRows: nat, afterRows: nat, addedKeys: multiset<DisplayKey>,
                          removedKeys: multiset<DisplayKey>,
                          changedRows: multiset<ChangedRow>, changedKeys: multiset<DisplayKey>, limit: nat) {
    && report.beforeRows == beforeRows && report.afterRows == afterRows
    && report.addedCount == |addedKeys| && report.removedCount == |removedKeys| &&
      report.changedCount == |changedRows| == |changedKeys|
    && report.addedKeys == Smallest(addedKeys, limit) && report.removedKeys == Smallest(removedKeys, limit)
    && Keys(report.changed, RowKey) == Smallest(changedKeys, limit) && multiset(report.changed) <= changedRows
    && (report.truncated <==> report.addedCount > limit || report.removedCount > limit || report.changedCount > limit)
  }

  // ----- the samples in plain terms ---------------------------------------------------------------------

  lemma PrefixContents<T>(s: seq<T>, n: nat)
    requires n <= |s|
    ensures multiset(s[..n]) + multiset(s[n..]) == multiset(s)
  {
    assert s == s[..n] + s[n..];
  }

  /** As many keys as fit are kept, all of them among those offered. */
  lemma SmallestFits(m: multiset<DisplayKey>, limit: nat)
    ensures |Smallest(m, limit)| == (if |m| <= limit then |m| else limit) && multiset(Smallest(m, limit)) <= m
  {
    SmallestIsPrefix(m, limit);
    SmallestCount(m, limit);
    PrefixContents(SortedOf(m, LexLeq), |Smallest(m, limit)|);
  }

  /** They are in ascending order: a prefix first, otherwise the smaller byte where two keys first differ. */
  lemma SmallestAscend(m: multiset<DisplayKey>, limit: nat, i: nat, j: nat)
    requires i < j < |Smallest(m, limit)|
    ensures var s, t := Smallest(m, limit)[i], Smallest(m, limit)[j];
            s <= t || exists p :: 0 <= p < |s| && p < |t| && s[..p] == t[..p] && s[p] < t[p]
  {
    SmallestIsSorted(m, limit);
    LexMeans(Smallest(m, limit)[i], Smallest(m, limit)[j]);
  }

  lemma LeastKeyIsLeast(m: multiset<DisplayKey>, t: DisplayKey)
    requires t in m
    ensures LeastKey(m) in m && LexLeq(LeastKey(m), t)
  {
    LexOrder();
    LeastExists(m, LexLeq);
  }

  lemma RestContents(x: DisplayKey, rest: seq<DisplayKey>, m: multiset<DisplayKey>)
    ensures m - multiset([x] + rest) == m - multiset{x} - multiset(rest)
    ensures forall s | s in [x] + rest :: s == x || s in rest
  {
    assert multiset([x] + rest) == multiset{x} + multiset(rest);
  }

  lemma {:induction false} SmallestLeq(m: multiset<DisplayKey>, limit: nat, s: DisplayKey, t: DisplayKey)
    requires s in Smallest(m, limit) && t in m - multiset(Smallest(m, limit))
    ensures LexLeq(s, t)
    decreases limit
  {
    var x := LeastKey(m);
    var rest := Smallest(m - multiset{x}, limit - 1);
    LeastKeyIsLeast(m, t);
    RestContents(x, rest, m);
    if s != x {
      SmallestLeq(m - multiset{x}, limit - 1, s, t);
    }
  }

  /** They precede every key that was offered and not kept. */
  lemma SmallestPrecede(m: multiset<DisplayKey>, limit: nat, s: DisplayKey, t: DisplayKey)
    requires s in Smallest(m, limit) && t in m - multiset(Smallest(m, limit))
    ensures s <= t || exists p :: 0 <= p < |s| && p < |t| && s[..p] == t[..p] && s[p] < t[p]
  {
    SmallestLeq(m, limit, s, t);
    LexMeans(s, t);
  }

  /** What a report says about the events of each kind. */
  lemma ReportMeans(report: DiffReport, beforeRows: nat, afterRows: nat, addedKeys: multiset<DisplayKey>,
                    removedKeys: multiset<DisplayKey>, changedRows: multiset<ChangedRow>,
                    changedKeys: multiset<DisplayKey>, limit: nat)
    requires Reports(report, beforeRows, afterRows, addedKeys, removedKeys, changedRows, changedKeys, limit)
    ensures report.beforeRows == beforeRows && report.afterRows == afterRows
    ensures report.addedCount == |addedKeys| && report.removedCount == |removedKeys|
    ensures report.changedCount == |changedRows| == |changedKeys|
    ensures |report.addedKeys| == (if |addedKeys| <= limit then |addedKeys| else limit)
    ensures |report.removedKeys| == (if |removedKeys| <= limit then |removedKeys| else limit)
    ensures |report.changed| == (if |changedRows| <= limit then |changedRows| else limit)
    ensures multiset(report.addedKeys) <= addedKeys && multiset(report.removedKeys) <= removedKeys
    ensures multiset(report.changed) <= changedRows
    ensures report.truncated <==> |addedKeys| > limit || |removedKeys| > limit || |changedRows| > limit
  {
    SmallestFits(addedKeys, limit);
    SmallestFits(removedKeys, limit);
    SmallestFits(changedKeys, limit);
    assert |report.changed| == |Keys(report.changed, RowKey)|;
  }

  /** A retained key precedes every key of its kind that was offered and not retained. */
  lemma RetainedPrecede(report: DiffReport, beforeRows: nat, afterRows: nat, addedKeys: multiset<DisplayKey>,
                        removedKeys: multiset<DisplayKey>, changedRows: multiset<ChangedRow>,
                        changedKeys: multiset<DisplayKey>, limit: nat, s: DisplayKey, t: DisplayKey)
    requires Reports(report, beforeRows, afterRows, addedKeys, removedKeys, changedRows, changedKeys, limit)
    requires
      || (s in report.addedKeys && t in addedKeys - multiset(report.addedKeys))
      || (s in report.removedKeys && t in removedKeys - multiset(report.removedKeys))
      || (s in Keys(report.changed, RowKey) && t in changedKeys - multiset(Keys(report.changed, RowKey)))
    ensures s <= t || exists p :: 0 <= p < |s| && p < |t| && s[..p] == t[..p] && s[p] < t[p]
  {
    if s in report.addedKeys && t in addedKeys - multiset(report.addedKeys) {
      SmallestPrecede(addedKeys, limit, s, t);
    } else if s in report.removedKeys && t in removedKeys - multiset(report.removedKeys) {
      SmallestPrecede(removedKeys, limit, s, t);
    } else {
      SmallestPrecede(changedKeys, limit, s, t);
    }
  }
}
