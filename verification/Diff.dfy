/**
 The keyed diff of two datasets, in memory and over hash partitions. Both report the same differences
 between the two maps from keys to rows.
 */
module Diff {
  import opened Bytes
  import opened Sequences
  import opened Sets
  import opened Sorting
  import opened Records
  import opened ExactState
  import opened DiffCodec
  import opened DiffFiles
  import opened DiffReports

  type Key = seq<byte>
  type Entries = map<Key, RowEntry>

  // ----- the specification ---------------------------------------------------------------------------

  ghost function MapOf(rows: seq<DiffRecord>): Entries {
    if rows == [] then map[]
    else
      var last := rows[|rows| - 1];
      MapOf(rows[..|rows| - 1])[last.key := last.entry]
  }

  ghost predicate Distinct(rows: seq<DiffRecord>) {
    rows != [] ==> Distinct(rows[..|rows| - 1]) && rows[|rows| - 1].key !in MapOf(rows[..|rows| - 1])
  }

  lemma {:induction false} DistinctCount(rows: seq<DiffRecord>)
    requires Distinct(rows)
    ensures |MapOf(rows)| == |MapOf(rows).Keys| == |rows|
    decreases |rows|
  {
    if rows != [] {
      var init, last := rows[..|rows| - 1], rows[|rows| - 1];
      DistinctCount(init);
      assert MapOf(rows).Keys == MapOf(init).Keys + {last.key};
    }
  }

  /** No key occurs twice. */
  lemma {:induction false} DistinctMeans(rows: seq<DiffRecord>)
    ensures forall k :: k in MapOf(rows) <==> exists i :: 0 <= i < |rows| && rows[i].key == k
    ensures Distinct(rows) <==> forall i, j | 0 <= i < j < |rows| :: rows[i].key != rows[j].key
    decreases |rows|
  {
    if rows != [] {
      var n := |rows| - 1;
      DistinctMeans(rows[..n]);
      assert forall i | 0 <= i < n :: rows[..n][i] == rows[i];
    }
  }

  /** One value per key of a set. */
  ghost function Over<T>(keys: set<Key>, f: Key -> T): multiset<T> {
    if keys == {} then multiset{}
    else
      var k :| k in keys;
      Over(keys - {k}, f) + multiset{f(k)}
  }

  lemma {:induction false} OverInsert<T>(keys: set<Key>, k: Key, f: Key -> T)
    requires k !in keys
    ensures Over(keys + {k}, f) == Over(keys, f) + multiset{f(k)}
    decreases |keys|
  {
    var all := keys + {k};
    var x :| x in all && Over(all, f) == Over(all - {x}, f) + multiset{f(x)};
    if x == k {
      assert all - {k} == keys;
    } else {
      var fewer := keys - {x};
      SwapOut(keys, k, x);
      OverInsert(fewer, k, f);
      OverInsert(fewer, x, f);
    }
  }

  lemma SwapOut(keys: set<Key>, k: Key, x: Key)
    requires x in keys && k !in keys
    ensures keys + {k} - {x} == (keys - {x}) + {k} && keys == (keys - {x}) + {x}
  {
  }

  lemma {:induction false} OverCount<T>(keys: set<Key>, f: Key -> T)
    ensures |Over(keys, f)| == |keys|
    decreases |keys|
  {
    if keys != {} {
      var k :| k in keys && Over(keys, f) == Over(keys - {k}, f) + multiset{f(k)};
      OverCount(keys - {k}, f);
    }
  }

  function DisplayOf(m: Entries): Key -> DisplayKey { k => if k in m then m[k].displayKey else [] }

  /** The names of the columns whose encoded values differ. */
  function ChangedColumns(before: seq<Option<seq<byte>>>, after: seq<Option<seq<byte>>>,
                          names: seq<string>): (r: seq<string>)
    ensures forall c | c in r :: exists i ::
            0 <= i < |before| && i < |after| && i < |names| && names[i] == c && before[i] != after[i]
    ensures forall i | 0 <= i < |before| && i < |after| && i < |names| && before[i] != after[i] :: names[i] in r
  {
    if before == [] || after == [] || names == [] then []
    else
      var rest := ChangedColumns(before[1..], after[1..], names[1..]);
      var r := if before[0] != after[0] then [names[0]] + rest else rest;
      assert forall i | 0 < i < |before| && i < |after| && i < |names| && before[i] != after[i] ::
        names[1..][i - 1] in rest;
      r
  }

  /** Where the named columns stand, the first of them at column `from`. */
  function ChangedAt(before: seq<Option<seq<byte>>>, after: seq<Option<seq<byte>>>, columns: nat,
                     n: nat): (at: seq<nat>)
    requires n <= columns
    ensures forall i | 0 <= i < |at| :: n <= at[i] < columns
    ensures forall i, j | 0 <= i < j < |at| :: at[i] < at[j]
    ensures forall c: nat :: c in at <==> n <= c < columns && c < |before| && c < |after| && before[c] != after[c]
    decreases columns - n
  {
    if n == columns || n >= |before| || n >= |after| then []
    else
      var rest := ChangedAt(before, after, columns, n + 1);
      assert forall c: nat :: c in [n] + rest <==> c == n || c in rest;
      if before[n] != after[n] then [n] + rest else rest
  }

  function NamesAt(names: seq<string>, at: seq<nat>): (r: seq<string>)
    requires forall i | 0 <= i < |at| :: at[i] < |names|
    ensures |r| == |at| && forall i | 0 <= i < |r| :: r[i] == names[at[i]]
  {
    seq(|at|, i requires 0 <= i < |at| && at[i] < |names| => names[at[i]])
  }

  lemma NamesStep(names: seq<string>, c: nat, at: seq<nat>)
    requires c < |names| && forall i | 0 <= i < |at| :: at[i] < |names|
    ensures NamesAt(names, [c] + at) == [names[c]] + NamesAt(names, at)
  {
  }

  lemma {:induction false} ChangedFrom(before: seq<Option<seq<byte>>>, after: seq<Option<seq<byte>>>,
                                       names: seq<string>, n: nat)
    requires n <= |names| && n <= |before| && n <= |after|
    ensures ChangedColumns(before[n..], after[n..], names[n..]) ==
            NamesAt(names, ChangedAt(before, after, |names|, n))
    decreases |names| - n
  {
    if n < |names| && n < |before| && n < |after| {
      ChangedFrom(before, after, names, n + 1);
      ColumnsStep(before, after, names, n);
      NamesStep(names, n, ChangedAt(before, after, |names|, n + 1));
    }
  }

  lemma ColumnsStep(before: seq<Option<seq<byte>>>, after: seq<Option<seq<byte>>>, names: seq<string>, n: nat)
    requires n < |names| && n < |before| && n < |after|
    ensures ChangedColumns(before[n..], after[n..], names[n..]) ==
            (if before[n] != after[n] then [names[n]] else []) +
              ChangedColumns(before[n + 1..], after[n + 1..], names[n + 1..])
  {
    DropOne(before, n);
    DropOne(after, n);
    DropOne(names, n);
  }

  lemma DropOne<T>(s: seq<T>, n: nat)
    requires n < |s|
    ensures s[n..] != [] && s[n..][0] == s[n] && s[n..][1..] == s[n + 1..]
  {
  }

  /** The changed columns are named in column order, each as often as it occurs. */
  lemma ChangedColumnsInOrder(before: seq<Option<seq<byte>>>, after: seq<Option<seq<byte>>>, names: seq<string>)
    returns (at: seq<nat>)
    ensures |at| == |ChangedColumns(before, after, names)|
    ensures forall i | 0 <= i < |at| :: at[i] < |names| && ChangedColumns(before, after, names)[i] == names[at[i]]
    ensures forall i, j | 0 <= i < j < |at| :: at[i] < at[j]
    ensures forall c: nat :: c in at <==> c < |before| && c < |after| && c < |names| && before[c] != after[c]
  {
    at := ChangedAt(before, after, |names|, 0);
    ChangedFrom(before, after, names, 0);
    assert before[0..] == before && after[0..] == after && names[0..] == names;
  }

  function RowOf(b: Entries, a: Entries, names: seq<string>, detail: bool): Key -> ChangedRow {
    k => ChangedRow(DisplayOf(a)(k), if detail && k in b && k in a then ChangedColumns(b[k].values, a[k].values, names)
                    else [])
  }

  /** The keys among `keys` that both sides have with different rows. */
  function ChangedIn(keys: set<Key>, b: Entries, a: Entries): set<Key> {
    set k | k in keys && k in b && k in a && b[k].hash != a[k].hash
  }

  /** What a diff of two keyed datasets must report. */
  ghost predicate IsDiff(report: DiffReport, b: Entries, a: Entries, names: seq<string>, limit: nat) {
    var changed := ChangedIn(a.Keys, b, a);
    Reports(report, |b|, |a|, Over(a.Keys - b.Keys, DisplayOf(a)), Over(b.Keys - a.Keys, DisplayOf(b)),
            Over(changed, RowOf(b, a, names, true)), Over(changed, DisplayOf(a)), limit)
  }

  lemma DiffCounts(report: DiffReport, b: Entries, a: Entries, names: seq<string>, limit: nat)
    requires IsDiff(report, b, a, names, limit)
    ensures report.beforeRows == |b.Keys| && report.afterRows == |a.Keys|
    ensures report.addedCount == |a.Keys - b.Keys| && report.removedCount == |b.Keys - a.Keys|
    ensures report.changedCount == |ChangedIn(a.Keys, b, a)|
  {
    OverCount(a.Keys - b.Keys, DisplayOf(a));
    OverCount(b.Keys - a.Keys, DisplayOf(b));
    OverCount(ChangedIn(a.Keys, b, a), DisplayOf(a));
  }

  /** Rows balance, and only keys on both sides can have changed. */
  lemma DiffBalances(report: DiffReport, b: Entries, a: Entries, names: seq<string>, limit: nat)
    requires IsDiff(report, b, a, names, limit)
    ensures report.beforeRows + report.addedCount == report.afterRows + report.removedCount
    ensures report.changedCount <= |a.Keys * b.Keys|
  {
    DiffCounts(report, b, a, names, limit);
    SetsBalance(b.Keys, a.Keys);
    Contained(ChangedIn(a.Keys, b, a), a.Keys * b.Keys);
  }

  /** Two reports of the same difference agree on everything but the columns of rows that share a display key. */
  lemma DiffDetermined(x: DiffReport, y: DiffReport, b: Entries, a: Entries, names: seq<string>, limit: nat)
    requires IsDiff(x, b, a, names, limit) && IsDiff(y, b, a, names, limit)
    ensures x.(changed := []) == y.(changed := []) && Keys(x.changed, RowKey) == Keys(y.changed, RowKey)
  {
  }

  lemma {:induction false} OverMember<T>(keys: set<Key>, f: Key -> T, x: T)
    requires x in Over(keys, f)
    ensures exists k :: k in keys && f(k) == x
    decreases |keys|
  {
    var k :| k in keys && Over(keys, f) == Over(keys - {k}, f) + multiset{f(k)};
    if x != f(k) {
      OverMember(keys - {k}, f, x);
    }
  }

  lemma OverHas<T>(keys: set<Key>, f: Key -> T, k: Key)
    requires k in keys
    ensures f(k) in Over(keys, f)
  {
    OverInsert(keys - {k}, k, f);
    assert keys - {k} + {k} == keys;
  }

  // Every sample of a report stands for a key of its kind, and a changed row names the columns that differ.

  lemma AddedStandForKeys(report: DiffReport, b: Entries, a: Entries, names: seq<string>, limit: nat, s: DisplayKey)
    requires IsDiff(report, b, a, names, limit) && s in report.addedKeys
    ensures exists k :: k in a && k !in b && a[k].displayKey == s
  {
    SmallestFits(Over(a.Keys - b.Keys, DisplayOf(a)), limit);
    assert s in multiset(report.addedKeys);
    OverMember(a.Keys - b.Keys, DisplayOf(a), s);
  }

  lemma RemovedStandForKeys(report: DiffReport, b: Entries, a: Entries, names: seq<string>, limit: nat, s: DisplayKey)
    requires IsDiff(report, b, a, names, limit) && s in report.removedKeys
    ensures exists k :: k in b && k !in a && b[k].displayKey == s
  {
    SmallestFits(Over(b.Keys - a.Keys, DisplayOf(b)), limit);
    assert s in multiset(report.removedKeys);
    OverMember(b.Keys - a.Keys, DisplayOf(b), s);
  }

  lemma ChangedStandForKeys(report: DiffReport, b: Entries, a: Entries, names: seq<string>, limit: nat, row: ChangedRow)
    requires IsDiff(report, b, a, names, limit) && row in report.changed
    ensures exists k :: k in a && k in b && a[k].hash != b[k].hash && row.key == a[k].displayKey &&
                          row.columns == ChangedColumns(b[k].values, a[k].values, names)
  {
    var changed, f := ChangedIn(a.Keys, b, a), RowOf(b, a, names, true);
    assert row in multiset(report.changed);
    OverMember(changed, f, row);
    var k :| k in changed && f(k) == row;
    assert k in a && k in b;
  }

  lemma DroppedKey(offered: multiset<DisplayKey>, kept: seq<DisplayKey>, t: DisplayKey)
    requires t in offered && t !in kept
    ensures t in offered - multiset(kept)
  {
  }

  lemma KeptComeFirst(offered: multiset<DisplayKey>, kept: seq<DisplayKey>, limit: nat, s: DisplayKey, t: DisplayKey)
    requires kept == Smallest(offered, limit) && s in kept && t in offered && t !in kept
    ensures s <= t || exists p :: 0 <= p < |s| && p < |t| && s[..p] == t[..p] && s[p] < t[p]
  {
    DroppedKey(offered, kept, t);
    SmallestPrecede(offered, limit, s, t);
  }

  lemma SampledKeys(report: DiffReport, b: Entries, a: Entries, names: seq<string>, limit: nat)
    requires IsDiff(report, b, a, names, limit)
    ensures report.addedKeys == Smallest(Over(a.Keys - b.Keys, DisplayOf(a)), limit)
    ensures report.removedKeys == Smallest(Over(b.Keys - a.Keys, DisplayOf(b)), limit)
    ensures Keys(report.changed, RowKey) == Smallest(Over(ChangedIn(a.Keys, b, a), DisplayOf(a)), limit)
  {
  }

  lemma OfferedKeys(b: Entries, a: Entries, k: Key)
    ensures k in a && k !in b ==> a[k].displayKey in Over(a.Keys - b.Keys, DisplayOf(a))
    ensures k in b && k !in a ==> b[k].displayKey in Over(b.Keys - a.Keys, DisplayOf(b))
    ensures k in a && k in b && a[k].hash != b[k].hash ==>
            a[k].displayKey in Over(ChangedIn(a.Keys, b, a), DisplayOf(a))
  {
    if k in a && k !in b {
      OverHas(a.Keys - b.Keys, DisplayOf(a), k);
    } else if k in b && k !in a {
      OverHas(b.Keys - a.Keys, DisplayOf(b), k);
    } else if k in a && a[k].hash != b[k].hash {
      OverHas(ChangedIn(a.Keys, b, a), DisplayOf(a), k);
    }
  }

  // The keys of a kind that are not sampled come after those that are, by the bytes of their display keys.

  lemma AddedComeFirst(report: DiffReport, b: Entries, a: Entries, names: seq<string>, limit: nat, k: Key,
                       s: DisplayKey)
    requires IsDiff(report, b, a, names, limit) && s in report.addedKeys
    requires k in a && k !in b && a[k].displayKey !in report.addedKeys
    ensures var t := a[k].displayKey;
            s <= t || exists p :: 0 <= p < |s| && p < |t| && s[..p] == t[..p] && s[p] < t[p]
  {
    SampledKeys(report, b, a, names, limit);
    OfferedKeys(b, a, k);
    KeptComeFirst(Over(a.Keys - b.Keys, DisplayOf(a)), report.addedKeys, limit, s, a[k].displayKey);
  }

  lemma RemovedComeFirst(report: DiffReport, b: Entries, a: Entries, names: seq<string>, limit: nat, k: Key,
                         s: DisplayKey)
    requires IsDiff(report, b, a, names, limit) && s in report.removedKeys
    requires k in b && k !in a && b[k].displayKey !in report.removedKeys
    ensures var t := b[k].displayKey;
            s <= t || exists p :: 0 <= p < |s| && p < |t| && s[..p] == t[..p] && s[p] < t[p]
  {
    SampledKeys(report, b, a, names, limit);
    OfferedKeys(b, a, k);
    KeptComeFirst(Over(b.Keys - a.Keys, DisplayOf(b)), report.removedKeys, limit, s, b[k].displayKey);
  }

  lemma ChangedComeFirst(report: DiffReport, b: Entries, a: Entries, names: seq<string>, limit: nat, k: Key,
                         s: DisplayKey)
    requires IsDiff(report, b, a, names, limit) && s in Keys(report.changed, RowKey)
    requires k in a && k in b && a[k].hash != b[k].hash && a[k].displayKey !in Keys(report.changed, RowKey)
    ensures var t := a[k].displayKey;
            s <= t || exists p :: 0 <= p < |s| && p < |t| && s[..p] == t[..p] && s[p] < t[p]
  {
    SampledKeys(report, b, a, names, limit);
    OfferedKeys(b, a, k);
    KeptComeFirst(Over(ChangedIn(a.Keys, b, a), DisplayOf(a)), Keys(report.changed, RowKey), limit, s, a[k].displayKey);
  }

  /** No two changed rows look alike to a reader of the report. */
  ghost predicate DistinctDisplays(b: Entries, a: Entries) {
    forall k, l | k in ChangedIn(a.Keys, b, a) && l in ChangedIn(a.Keys, b, a) && a[k].displayKey == a[l].displayKey ::
      k == l
  }

  /** Then two reports of the same difference are equal, changed columns included. */
  lemma ReportsEqual(x: DiffReport, y: DiffReport, b: Entries, a: Entries, names: seq<string>, limit: nat)
    requires IsDiff(x, b, a, names, limit) && IsDiff(y, b, a, names, limit) && DistinctDisplays(b, a)
    ensures x == y
  {
    var changed, row := ChangedIn(a.Keys, b, a), RowOf(b, a, names, true);
    DiffDetermined(x, y, b, a, names, limit);
    forall u, v | u in Over(changed, row) && v in Over(changed, row) && RowKey(u) == RowKey(v) ensures u == v {
      OverMember(changed, row, u);
      OverMember(changed, row, v);
    }
    SamplesDetermined(x.changed, y.changed, Over(changed, row), Over(changed, DisplayOf(a)), RowKey, limit);
  }

  // ----- progress of a comparison ----------------------------------------------------------------------

  /** The logs after comparing the after-keys `doneA` and scanning the before-keys `doneB`. */
  ghost predicate Progress(added: seq<DisplayKey>, removed: seq<DisplayKey>, changed: seq<ChangedRow>, b: Entries,
                           a: Entries,
                           doneA: set<Key>, doneB: set<Key>, names: seq<string>, detail: bool) {
    && doneA <= a.Keys && doneB <= b.Keys
    && multiset(added) == Over(doneA - b.Keys, DisplayOf(a))
    && multiset(removed) == Over(doneB - a.Keys, DisplayOf(b))
    && multiset(changed) == Over(ChangedIn(doneA, b, a), RowOf(b, a, names, detail))
    && multiset(Keys(changed, RowKey)) == Over(ChangedIn(doneA, b, a), DisplayOf(a))
  }

  lemma SameChanges(done: set<Key>, b: Entries, a: Entries, k: Key)
    requires k !in b || (k in a && b[k].hash == a[k].hash)
    ensures ChangedIn(done + {k}, b, a) == ChangedIn(done, b, a)
  {
  }

  lemma AddedStep(added: seq<DisplayKey>, removed: seq<DisplayKey>, changed: seq<ChangedRow>, b: Entries, a: Entries,
                  doneA: set<Key>, doneB: set<Key>, names: seq<string>, detail: bool, k: Key)
    requires Progress(added, removed, changed, b, a, doneA, doneB, names, detail) && k in a && k !in doneA && k !in b
    ensures Progress(added + [a[k].displayKey], removed, changed, b, a, doneA + {k}, doneB, names, detail)
  {
    OneLogged(added, doneA - b.Keys, DisplayOf(a), k);
    MinusOther(doneA, b.Keys, k);
    SameChanges(doneA, b, a, k);
  }

  lemma OneLogged<T>(log: seq<T>, keys: set<Key>, image: Key -> T, k: Key)
    requires multiset(log) == Over(keys, image) && k !in keys
    ensures multiset(log + [image(k)]) == Over(keys + {k}, image)
  {
    MultisetSnoc(log, image(k));
    OverInsert(keys, k, image);
  }

  lemma MinusOther(done: set<Key>, keys: set<Key>, k: Key)
    ensures (done + {k}) - keys == if k in keys then done - keys else (done - keys) + {k}
  {
  }

  lemma ChangedStep(added: seq<DisplayKey>, removed: seq<DisplayKey>, changed: seq<ChangedRow>, b: Entries, a: Entries,
                    doneA: set<Key>, doneB: set<Key>, names: seq<string>, detail: bool, k: Key)
    requires Progress(added, removed, changed, b, a, doneA, doneB, names, detail)
    requires k in a && k !in doneA && k in b && b[k].hash != a[k].hash
    ensures Progress(added, removed, changed + [RowOf(b, a, names, detail)(k)], b, a, doneA + {k}, doneB, names, detail)
  {
    var keys := ChangedIn(doneA, b, a);
    MinusOther(doneA, b.Keys, k);
    MoreChanges(doneA, b, a, k);
    ChangedLogged(changed, keys, k, RowOf(b, a, names, detail), DisplayOf(a));
  }

  lemma MoreChanges(done: set<Key>, b: Entries, a: Entries, k: Key)
    requires k in b && k in a && b[k].hash != a[k].hash
    ensures ChangedIn(done + {k}, b, a) == ChangedIn(done, b, a) + {k}
  {
  }

  lemma ChangedLogged(changed: seq<ChangedRow>, keys: set<Key>, k: Key, row: Key -> ChangedRow,
                      display: Key -> DisplayKey)
    requires k !in keys && row(k).key == display(k)
    requires multiset(changed) == Over(keys, row) && multiset(Keys(changed, RowKey)) == Over(keys, display)
    ensures multiset(changed + [row(k)]) == Over(keys + {k}, row)
    ensures multiset(Keys(changed + [row(k)], RowKey)) == Over(keys + {k}, display)
  {
    MultisetSnoc(changed, row(k));
    KeysSnoc(changed, row(k), RowKey);
    MultisetSnoc(Keys(changed, RowKey), row(k).key);
    OverInsert(keys, k, row);
    OverInsert(keys, k, display);
  }

  lemma SameStep(added: seq<DisplayKey>, removed: seq<DisplayKey>, changed: seq<ChangedRow>, b: Entries, a: Entries,
                 doneA: set<Key>, doneB: set<Key>, names: seq<string>, detail: bool, k: Key)
    requires Progress(added, removed, changed, b, a, doneA, doneB, names, detail)
    requires k in a && k !in doneA && k in b && b[k].hash == a[k].hash
    ensures Progress(added, removed, changed, b, a, doneA + {k}, doneB, names, detail)
  {
    MinusOther(doneA, b.Keys, k);
    SameChanges(doneA, b, a, k);
  }

  lemma RemovedStep(added: seq<DisplayKey>, removed: seq<DisplayKey>, changed: seq<ChangedRow>, b: Entries, a: Entries,
                    doneA: set<Key>, doneB: set<Key>, names: seq<string>, detail: bool, k: Key)
    requires Progress(added, removed, changed, b, a, doneA, doneB, names, detail) && k in b && k !in doneB
    ensures Progress(added, if k in a then removed else removed + [b[k].displayKey], changed, b, a, doneA, doneB + {k},
                     names, detail)
  {
    MinusOther(doneB, a.Keys, k);
    if k !in a {
      OneLogged(removed, doneB - a.Keys, DisplayOf(b), k);
    }
  }

  ghost predicate Comparing(acc: Accumulator, b: Entries, a: Entries, doneA: set<Key>, doneB: set<Key>,
                            names: seq<string>)
    reads acc
  {
    acc.Valid() && Progress(acc.log.added, acc.log.removed, acc.log.changed, b, a, doneA, doneB, names, acc.output ||
                            acc.sampleLimit != 0)
  }

  // What a sequence of after-rows adds to the logs, against the before-rows at hand.

  function AddedOf(before: Entries, r: DiffRecord): seq<DisplayKey> { if r.key in before then []
      else [r.entry.displayKey] }

  function ChangedOf(before: Entries, r: DiffRecord, names: seq<string>, detail: bool): seq<ChangedRow> {
    if r.key in before && before[r.key].hash != r.entry.hash
    then [ChangedRow(r.entry.displayKey, if detail then ChangedColumns(before[r.key].values, r.entry.values, names)
                     else [])]
    else []
  }

  function AllAdded(before: Entries, rs: seq<DiffRecord>, n: nat): seq<DisplayKey>
    requires n <= |rs|
  {
    if n == 0 then [] else AllAdded(before, rs, n - 1) + AddedOf(before, rs[n - 1])
  }

  function AllChanged(before: Entries, rs: seq<DiffRecord>, n: nat, names: seq<string>, detail: bool): seq<ChangedRow>
    requires n <= |rs|
  {
    if n == 0 then [] else AllChanged(before, rs, n - 1, names, detail) + ChangedOf(before, rs[n - 1], names, detail)
  }

  ghost predicate Logged(acc: Accumulator, added: seq<DisplayKey>, removed: seq<DisplayKey>, changed: seq<ChangedRow>)
    reads acc
  {
    acc.Valid() && acc.log.added == added && acc.log.removed == removed && acc.log.changed == changed
  }

  /** One after-row, looked up among the before-rows at hand. */
  method CompareRow(acc: Accumulator, before: Entries, row: DiffRecord, names: seq<string>) returns (r: Result<()>)
    requires acc.Valid()
    modifies acc
    ensures r.Success? ==>
              Logged(acc, old(acc.log.added) + AddedOf(before, row), old(acc.log.removed),
                     old(acc.log.changed) + ChangedOf(before, row, names, acc.output || acc.sampleLimit != 0))
    ensures r.Failure? ==> r.error.Limit?
  {
    assert acc.log.added + [] == acc.log.added && acc.log.changed + [] == acc.log.changed;
    if row.key in before {
      if before[row.key].hash != row.entry.hash {
        var needed := acc.NeedsChangedDetail();
        r := acc.Changed(row.entry.displayKey, if needed then ChangedColumns(before[row.key].values, row.entry.values,
          names) else []);
      } else {
        r := Success(());
      }
    } else {
      r := acc.Added(row.entry.displayKey);
    }
  }

  /** After-rows in turn; a repeated key is an error when keys are checked as they come. */
  method CompareRows(acc: Accumulator, before: Entries, rows: seq<DiffRecord>, names: seq<string>)
    returns (r: Result<()>, seen: set<Key>)
    requires acc.Valid()
    modifies acc
    ensures r.Success? ==> Distinct(rows) && seen == MapOf(rows).Keys
    ensures r.Success? ==>
              Logged(acc, old(acc.log.added) + AllAdded(before, rows, |rows|), old(acc.log.removed),
                     old(acc.log.changed) + AllChanged(before, rows, |rows|, names, acc.output || acc.sampleLimit != 0))
    ensures r.Failure? ==> r.error.Limit? || !Distinct(rows)
  {
    ghost var detail := acc.output || acc.sampleLimit != 0;
    ghost var added, removed, changed := acc.log.added, acc.log.removed, acc.log.changed;
    assert added + [] == added && changed + [] == changed;
    seen := {};
    for i := 0 to |rows|
      invariant Compared(acc, before, rows, i, seen, names, added, removed, changed, detail)
    {
      r, seen := CompareNext(acc, before, rows, i, seen, names, added, removed, changed, detail);
      if r.Failure? {
        return;
      }
    }
    assert rows[..|rows|] == rows;
    r := Success(());
  }

  /** The accumulator after the first n rows. */
  ghost predicate Compared(acc: Accumulator, before: Entries, rows: seq<DiffRecord>, n: nat, seen: set<Key>,
                           names: seq<string>,
                           added: seq<DisplayKey>, removed: seq<DisplayKey>, changed: seq<ChangedRow>, detail: bool)
    reads acc
  {
    && n <= |rows| && Distinct(rows[..n]) && seen == MapOf(rows[..n]).Keys &&
      detail == (acc.output || acc.sampleLimit != 0)
    && Logged(acc, added + AllAdded(before, rows, n), removed, changed + AllChanged(before, rows, n, names, detail))
  }

  method CompareNext(acc: Accumulator, before: Entries, rows: seq<DiffRecord>, i: nat, seen: set<Key>,
                     names: seq<string>,
                     ghost added: seq<DisplayKey>, ghost removed: seq<DisplayKey>, ghost changed: seq<ChangedRow>,
                       ghost detail: bool)
    returns (r: Result<()>, more: set<Key>)
    requires i < |rows| && Compared(acc, before, rows, i, seen, names, added, removed, changed, detail)
    modifies acc
    ensures r.Success? ==> Compared(acc, before, rows, i + 1, more, names, added, removed, changed, detail)
    ensures r.Failure? ==> r.error.Limit? || !Distinct(rows)
  {
    SplitLast(rows, i);
    Associative(added, AllAdded(before, rows, i), AddedOf(before, rows[i]));
    Associative(changed, AllChanged(before, rows, i, names, detail), ChangedOf(before, rows[i], names, detail));
    more := seen + {rows[i].key};
    if rows[i].key in seen {
      RepeatedKey(rows, i);
      return Failure(Corrupt), seen;
    }
    r := CompareRow(acc, before, rows[i], names);
  }

  /** What is logged and done once the first n after-rows are compared. */
  ghost predicate Reached(n: nat, added: seq<DisplayKey>, changed: seq<ChangedRow>, doneA: set<Key>, names: seq<string>,
                          detail: bool,
                          before: Entries, rows: seq<DiffRecord>, allAdded: seq<DisplayKey>,
                            allChanged: seq<ChangedRow>, done: set<Key>) {
    && n <= |rows| && Distinct(rows[..n]) && done == doneA + MapOf(rows[..n]).Keys
    && allAdded == added + AllAdded(before, rows, n) &&
      allChanged == changed + AllChanged(before, rows, n, names, detail)
  }

  /** Distinct after-rows make the progress their keys stand for. */
  lemma {:induction false} RowsCompared(added: seq<DisplayKey>, removed: seq<DisplayKey>, changed: seq<ChangedRow>,
                                        b: Entries, a: Entries,
                                        doneA: set<Key>, doneB: set<Key>, names: seq<string>, detail: bool,
                                        before: Entries, rows: seq<DiffRecord>, n: nat,
                                        allAdded: seq<DisplayKey>, allChanged: seq<ChangedRow>, done: set<Key>)
    requires Progress(added, removed, changed, b, a, doneA, doneB, names, detail)
    requires Reached(n, added, changed, doneA, names, detail, before, rows, allAdded, allChanged, done)
    requires AllMatch(rows, n, before, b, a, doneA)
    ensures Progress(allAdded, removed, allChanged, b, a, done, doneB, names, detail)
    decreases n
  {
    if n == 0 {
      NothingLogged(added, changed, before, rows, names, detail);
      assert done == doneA;
    } else {
      var fewer, earlier, sofar := StepBack(n, added, changed, doneA, names, detail, before, rows, allAdded, allChanged,
                                            done);
      RowsCompared(added, removed, changed, b, a, doneA, doneB, names, detail, before, rows, n - 1, fewer, earlier,
                   sofar);
      LastCompared(fewer, removed, earlier, b, a, sofar, doneB, names, detail, before, rows[n - 1], allAdded,
                   allChanged, done);
    }
  }

  lemma StepBack(n: nat, added: seq<DisplayKey>, changed: seq<ChangedRow>, doneA: set<Key>, names: seq<string>,
                 detail: bool,
                 before: Entries, rows: seq<DiffRecord>, allAdded: seq<DisplayKey>, allChanged: seq<ChangedRow>,
                   done: set<Key>)
    returns (fewer: seq<DisplayKey>, earlier: seq<ChangedRow>, sofar: set<Key>)
    requires n > 0 && Reached(n, added, changed, doneA, names, detail, before, rows, allAdded, allChanged, done)
    requires rows[n - 1].key !in doneA
    ensures Reached(n - 1, added, changed, doneA, names, detail, before, rows, fewer, earlier, sofar)
    ensures rows[n - 1].key !in sofar && done == sofar + {rows[n - 1].key}
    ensures allAdded == fewer + AddedOf(before, rows[n - 1]) &&
            allChanged == earlier + ChangedOf(before, rows[n - 1], names, detail)
  {
    fewer, earlier := added + AllAdded(before, rows, n - 1), changed + AllChanged(before, rows, n - 1, names, detail);
    sofar := doneA + MapOf(rows[..n - 1]).Keys;
    LastRow(doneA, rows, n, sofar, done);
    LastLogged(added, changed, before, rows, n, names, detail);
  }

  lemma LastCompared(fewer: seq<DisplayKey>, removed: seq<DisplayKey>, earlier: seq<ChangedRow>, b: Entries, a: Entries,
                     sofar: set<Key>,
                     doneB: set<Key>, names: seq<string>, detail: bool, before: Entries, row: DiffRecord,
                     allAdded: seq<DisplayKey>, allChanged: seq<ChangedRow>, done: set<Key>)
    requires Progress(fewer, removed, earlier, b, a, sofar, doneB, names, detail)
    requires Matches(row, before, b, a) && row.key !in sofar && done == sofar + {row.key}
    requires allAdded == fewer + AddedOf(before, row) && allChanged == earlier + ChangedOf(before, row, names, detail)
    ensures Progress(allAdded, removed, allChanged, b, a, done, doneB, names, detail)
  {
    RowCompared(fewer, removed, earlier, b, a, sofar, doneB, names, detail, before, row);
  }

  ghost predicate AllMatch(rows: seq<DiffRecord>, n: nat, before: Entries, b: Entries, a: Entries, doneA: set<Key>)
    requires n <= |rows|
  {
    forall i | 0 <= i < n :: Matches(rows[i], before, b, a) && rows[i].key !in doneA
  }

  lemma NothingLogged(added: seq<DisplayKey>, changed: seq<ChangedRow>, before: Entries, rows: seq<DiffRecord>,
                      names: seq<string>, detail: bool)
    ensures added + AllAdded(before, rows, 0) == added &&
            changed + AllChanged(before, rows, 0, names, detail) == changed
  {
  }

  lemma LastLogged(added: seq<DisplayKey>, changed: seq<ChangedRow>, before: Entries, rows: seq<DiffRecord>, n: nat,
                   names: seq<string>, detail: bool)
    requires 0 < n <= |rows|
    ensures added + AllAdded(before, rows, n) == added + AllAdded(before, rows, n - 1) + AddedOf(before, rows[n - 1])
    ensures changed + AllChanged(before, rows, n, names, detail)
            == changed + AllChanged(before, rows, n - 1, names, detail) + ChangedOf(before, rows[n - 1], names, detail)
  {
    Associative(added, AllAdded(before, rows, n - 1), AddedOf(before, rows[n - 1]));
    Associative(changed, AllChanged(before, rows, n - 1, names, detail), ChangedOf(before, rows[n - 1], names, detail));
  }

  lemma LastRow(doneA: set<Key>, rows: seq<DiffRecord>, n: nat, sofar: set<Key>, done: set<Key>)
    requires 0 < n <= |rows| && Distinct(rows[..n]) && rows[n - 1].key !in doneA
    requires sofar == doneA + MapOf(rows[..n - 1]).Keys && done == doneA + MapOf(rows[..n]).Keys
    ensures Distinct(rows[..n - 1]) && rows[n - 1].key !in sofar && done == sofar + {rows[n - 1].key}
  {
    SplitLast(rows, n - 1);
  }

  /** The row is the after-row of its key, and looks up the right before-row. */
  ghost predicate Matches(row: DiffRecord, before: Entries, b: Entries, a: Entries) {
    && row.key in a && a[row.key] == row.entry
    && (row.key in before <==> row.key in b) && (row.key in before ==> before[row.key] == b[row.key])
  }

  lemma RowCompared(added: seq<DisplayKey>, removed: seq<DisplayKey>, changed: seq<ChangedRow>, b: Entries, a: Entries,
                    doneA: set<Key>, doneB: set<Key>, names: seq<string>, detail: bool, before: Entries,
                      row: DiffRecord)
    requires Progress(added, removed, changed, b, a, doneA, doneB, names, detail)
    requires Matches(row, before, b, a) && row.key !in doneA
    ensures Progress(added + AddedOf(before, row), removed, changed + ChangedOf(before, row, names, detail),
                     b, a, doneA + {row.key}, doneB, names, detail)
  {
    assert added + [] == added && changed + [] == changed;
    if row.key !in b {
      AddedStep(added, removed, changed, b, a, doneA, doneB, names, detail, row.key);
    } else if b[row.key].hash != row.entry.hash {
      ChangedStep(added, removed, changed, b, a, doneA, doneB, names, detail, row.key);
    } else {
      SameStep(added, removed, changed, b, a, doneA, doneB, names, detail, row.key);
    }
  }

  /** One before-row, removed unless its key was seen after. */
  method ScanBefore(acc: Accumulator, seen: bool, key: Key, entry: RowEntry, ghost names: seq<string>,
                    ghost b: Entries, ghost a: Entries, ghost doneA: set<Key>, ghost doneB: set<Key>)
                      returns (r: Result<()>)
    requires Comparing(acc, b, a, doneA, doneB, names) && key in b && b[key] == entry && key !in doneB &&
             (seen <==> key in a)
    modifies acc
    ensures r.Success? ==> Comparing(acc, b, a, doneA, doneB + {key}, names)
    ensures r.Failure? ==> r.error.Limit?
  {
    RemovedStep(acc.log.added, acc.log.removed, acc.log.changed, b, a, doneA, doneB, names, acc.output ||
                acc.sampleLimit != 0, key);
    if seen {
      return Success(());
    }
    r := acc.Removed(entry.displayKey);
  }

  /** Once every key of both sides is done, the accumulator's report is the diff. */
  method FinishDiff(acc: Accumulator, ghost b: Entries, ghost a: Entries, names: seq<string>)
    returns (report: DiffReport)
    requires Comparing(acc, b, a, a.Keys, b.Keys, names) && acc.beforeRows == |b| && acc.afterRows == |a|
    ensures IsDiff(report, b, a, names, acc.sampleLimit)
  {
    report := acc.Finish();
    var changed := ChangedIn(a.Keys, b, a);
    if !acc.output && acc.sampleLimit == 0 {
      OverCount(changed, RowOf(b, a, names, true));
      OverCount(changed, RowOf(b, a, names, false));
      NoSamples(report.changed, multiset(Keys(acc.log.changed, RowKey)));
    }
  }

  lemma NoSamples(changed: seq<ChangedRow>, keys: multiset<DisplayKey>)
    requires Keys(changed, RowKey) == Smallest(keys, 0)
    ensures changed == []
  {
    assert |changed| == |Keys(changed, RowKey)|;
  }

  // ----- in memory -----------------------------------------------------------------------------------

  /** A key met before makes the rows indistinct. */
  lemma RepeatedKey(rows: seq<DiffRecord>, i: nat)
    requires i < |rows| && rows[i].key in MapOf(rows[..i])
    ensures !Distinct(rows)
  {
    SplitLast(rows, i);
    if Distinct(rows) {
      DistinctPrefix(rows, i + 1);
      assert false;
    }
  }

  lemma {:induction false} DistinctPrefix(rows: seq<DiffRecord>, n: nat)
    requires Distinct(rows) && n <= |rows|
    ensures Distinct(rows[..n])
    decreases |rows|
  {
    if n < |rows| {
      DistinctPrefix(rows[..|rows| - 1], n);
      assert rows[..|rows| - 1][..n] == rows[..n];
    } else {
      assert rows[..n] == rows;
    }
  }

  /** Build the map of one side; a repeated key is an error, and the only one but for the budget. */
  method CollectEntries(rows: seq<DiffRecord>) returns (r: Result<Entries>)
    ensures r.Success? ==> Distinct(rows) && r.value == MapOf(rows)
    ensures r.Failure? ==> r.error.Limit? || !Distinct(rows)
  {
    var entries: Entries := map[];
    for i := 0 to |rows|
      invariant Distinct(rows[..i]) && entries == MapOf(rows[..i])
    {
      var granted := Reserve();
      if !granted {
        return Failure(Limit);
      }
      SplitLast(rows, i);
      if rows[i].key in entries {
        RepeatedKey(rows, i);
        return Failure(Corrupt);
      }
      entries := entries[rows[i].key := rows[i].entry];
    }
    assert rows[..|rows|] == rows;
    r := Success(entries);
  }

  /** The order of a B-tree map: each key once, ascending. */
  method KeysInOrder(m: Entries) returns (ks: seq<Key>)
    ensures (forall k :: k in ks <==> k in m) && forall i, j | 0 <= i < j < |ks| ::
            ks[i] != ks[j] && LexLeq(ks[i], ks[j])
  {
    ks := [];
    var left := m.Keys;
    while left != {}
      invariant forall k :: k in m <==> k in ks || k in left
      invariant forall k | k in ks :: k !in left && forall q | q in left :: LexLeq(k, q)
      invariant forall i, j | 0 <= i < j < |ks| :: ks[i] != ks[j] && LexLeq(ks[i], ks[j])
      decreases left
    {
      LeastOfSet(left);
      var k :| k in left && forall q | q in left :: LexLeq(k, q);
      forall i | 0 <= i < |ks| ensures ks[i] != k && LexLeq(ks[i], k) {
        assert ks[i] in ks;
      }
      ks, left := ks + [k], left - {k};
    }
  }

  lemma {:induction false} LeastOfSet(s: set<Key>)
    requires s != {}
    ensures exists k :: k in s && forall q | q in s :: LexLeq(k, q)
  {
    LexOrder();
    var m := multiset(s);
    assert forall k :: k in m <==> k in s;
    LeastExists(m, LexLeq);
    var k :| Least(k, m, LexLeq);
  }

  /** The entries of a B-tree map in its order. */
  method RowsInOrder(m: Entries) returns (rows: seq<DiffRecord>)
    ensures Distinct(rows) && MapOf(rows) == m
  {
    var ks := KeysInOrder(m);
    rows := [];
    ghost var done := {};
    for i := 0 to |ks|
      invariant Distinct(rows) && MapOf(rows) == Restricted(m, done)
      invariant done == Elements(ks, i)
    {
      ElementsSnoc(ks, i);
      assert ks[i] in ks && ks[i] !in Elements(ks, i);
      RowAppended(m, done, rows, DiffRecord(ks[i], m[ks[i]]));
      rows, done := rows + [DiffRecord(ks[i], m[ks[i]])], done + {ks[i]};
    }
    assert Restricted(m, done) == m;
  }

  ghost function Restricted(m: Entries, keys: set<Key>): Entries { map k | k in m && k in keys :: m[k] }

  lemma RowAppended(m: Entries, done: set<Key>, rows: seq<DiffRecord>, row: DiffRecord)
    requires Distinct(rows) && MapOf(rows) == Restricted(m, done) && row.key in m && m[row.key] == row.entry &&
             row.key !in done
    ensures Distinct(rows + [row]) && MapOf(rows + [row]) == Restricted(m, done + {row.key})
  {
    assert (rows + [row])[..|rows|] == rows;
    RestrictedMore(m, done, row.key);
  }

  lemma RestrictedMore(m: Entries, keys: set<Key>, k: Key)
    requires k in m
    ensures Restricted(m, keys + {k}) == Restricted(m, keys)[k := m[k]]
  {
  }

  lemma {:induction false} RowsAreEntries(rows: seq<DiffRecord>, i: nat)
    requires Distinct(rows) && i < |rows|
    ensures rows[i].key in MapOf(rows) && MapOf(rows)[rows[i].key] == rows[i].entry
    decreases |rows|
  {
    var n := |rows| - 1;
    if i < n {
      RowsAreEntries(rows[..n], i);
    }
  }

  /** `diff_readers_in_memory`, on rows already keyed and hashed. */
  method DiffInMemory(beforeRows: seq<DiffRecord>, afterRows: seq<DiffRecord>, names: seq<string>, limit: nat,
                      output: bool, outputLimit: nat,
                      keyCost: Cost<DisplayKey>, rowCost: Cost<ChangedRow>) returns (r: Result<DiffReport>)
    ensures r.Success? ==> Distinct(beforeRows) && Distinct(afterRows)
    ensures r.Success? ==> IsDiff(r.value, MapOf(beforeRows), MapOf(afterRows), names, limit)
    ensures r.Failure? ==> r.error.Limit? || !Distinct(beforeRows) || !Distinct(afterRows)
  {
    var before := CollectEntries(beforeRows);
    if before.Failure? {
      return Failure(before.error);
    }
    var after := CollectEntries(afterRows);
    if after.Failure? {
      return Failure(after.error);
    }
    DistinctCount(beforeRows);
    DistinctCount(afterRows);
    var acc := new Accumulator(|beforeRows|, |afterRows|, limit, output, outputLimit, keyCost, rowCost);
    var compared := CompareAll(acc, before.value, after.value, names);
    if compared.Failure? {
      return Failure(compared.error);
    }
    var report := FinishDiff(acc, before.value, after.value, names);
    r := Success(report);
  }

  method CompareAll(acc: Accumulator, b: Entries, a: Entries, names: seq<string>) returns (r: Result<()>)
    requires acc.Valid() && acc.log.added == acc.log.removed == [] && acc.log.changed == []
    modifies acc
    ensures r.Success? ==> Comparing(acc, b, a, a.Keys, b.Keys, names)
    ensures r.Failure? ==> r.error.Limit?
  {
    NothingCompared(acc, b, a, names);
    var rows := RowsInOrder(a);
    var seen;
    r, seen := ComparePart(acc, b, rows, names, b, a, {}, {}, a.Keys);
    if r.Failure? {
      return;
    }
    r := ScanAll(acc, b, seen, names, b, a, a.Keys, {}, b.Keys);
  }

  /** Some of the after-rows, looked up among the before-rows that can match them. */
  method ComparePart(acc: Accumulator, before: Entries, rows: seq<DiffRecord>, names: seq<string>,
                     ghost b: Entries, ghost a: Entries, ghost doneA: set<Key>, ghost doneB: set<Key>,
                       ghost all: set<Key>)
    returns (r: Result<()>, seen: set<Key>)
    requires Comparing(acc, b, a, doneA, doneB, names) && all == doneA + MapOf(rows).Keys
    requires forall k | k in MapOf(rows) :: k in a && a[k] == MapOf(rows)[k] && k !in doneA
    requires forall k | k in MapOf(rows) :: (k in before <==> k in b) && (k in before ==> before[k] == b[k])
    modifies acc
    ensures r.Success? ==> Distinct(rows) && seen == MapOf(rows).Keys && Comparing(acc, b, a, all, doneB, names)
    ensures r.Failure? ==> r.error.Limit? || !Distinct(rows)
  {
    ghost var added, removed, changed := acc.log.added, acc.log.removed, acc.log.changed;
    r, seen := CompareRows(acc, before, rows, names);
    if r.Success? {
      PartCompared(added, removed, changed, b, a, doneA, doneB, names, acc.output || acc.sampleLimit != 0, before, rows,
                   acc.log.added, acc.log.changed, all);
    }
  }

  lemma PartCompared(added: seq<DisplayKey>, removed: seq<DisplayKey>, changed: seq<ChangedRow>, b: Entries, a: Entries,
                     doneA: set<Key>, doneB: set<Key>, names: seq<string>, detail: bool, before: Entries,
                       rows: seq<DiffRecord>,
                     allAdded: seq<DisplayKey>, allChanged: seq<ChangedRow>, all: set<Key>)
    requires Progress(added, removed, changed, b, a, doneA, doneB, names, detail) && Distinct(rows) &&
             all == doneA + MapOf(rows).Keys
    requires forall k | k in MapOf(rows) :: k in a && a[k] == MapOf(rows)[k] && k !in doneA
    requires forall k | k in MapOf(rows) :: (k in before <==> k in b) && (k in before ==> before[k] == b[k])
    requires allAdded == added + AllAdded(before, rows, |rows|) &&
             allChanged == changed + AllChanged(before, rows, |rows|, names, detail)
    ensures Progress(allAdded, removed, allChanged, b, a, all, doneB, names, detail)
  {
    assert rows[..|rows|] == rows;
    forall i | 0 <= i < |rows| ensures Matches(rows[i], before, b, a) && rows[i].key !in doneA {
      RowsAreEntries(rows, i);
    }
    RowsCompared(added, removed, changed, b, a, doneA, doneB, names, detail, before, rows, |rows|, allAdded, allChanged,
                 all);
  }

  /** The before-rows at hand are before-rows not scanned yet, and `seen` tells which of them the after side has. */
  ghost predicate Scannable(before: Entries, seen: set<Key>, b: Entries, a: Entries, doneB: set<Key>) {
    forall k | k in before :: k in b && b[k] == before[k] && k !in doneB && (k in seen <==> k in a)
  }

  ghost predicate Enumerates(ks: seq<Key>, before: Entries) {
    (forall k :: k in ks <==> k in before) && forall i, j | 0 <= i < j < |ks| :: ks[i] != ks[j]
  }

  /** Every before-row at hand, removed unless its key was seen after. */
  method ScanAll(acc: Accumulator, before: Entries, seen: set<Key>, ghost names: seq<string>,
                 ghost b: Entries, ghost a: Entries, ghost doneA: set<Key>, ghost doneB: set<Key>, ghost all: set<Key>)
                   returns (r: Result<()>)
    requires Comparing(acc, b, a, doneA, doneB, names) && all == doneB + before.Keys &&
             Scannable(before, seen, b, a, doneB)
    modifies acc
    ensures r.Success? ==> Comparing(acc, b, a, doneA, all, names)
    ensures r.Failure? ==> r.error.Limit?
  {
    var ks := KeysInOrder(before);
    AllElements(ks, before.Keys);
    NoElements(ks, doneB);
    var granted;
    ghost var done;
    granted, done := ScanKeys(acc, ks, before, seen, names, b, a, doneA, doneB);
    r := if granted then Success(()) else Failure(Limit);
  }

  /** Keys in turn, until the budget or the output limit refuses one. */
  method ScanKeys(acc: Accumulator, ks: seq<Key>, before: Entries, seen: set<Key>, ghost names: seq<string>,
                  ghost b: Entries, ghost a: Entries, ghost doneA: set<Key>, ghost doneB: set<Key>)
    returns (granted: bool, ghost done: set<Key>)
    requires ToScan(ks, before, seen, b, a, doneB)
    requires Scanning(acc, ks, 0, names, b, a, doneA, doneB, doneB)
    modifies acc
    ensures granted ==> Scanning(acc, ks, |ks|, names, b, a, doneA, doneB, done)
  {
    done := doneB;
    granted := true;
    for i := 0 to |ks|
      invariant granted && Scanning(acc, ks, i, names, b, a, doneA, doneB, done)
    {
      granted, done := ScanNext(acc, ks, i, before, seen, names, b, a, doneA, doneB, done);
      if !granted {
        return;
      }
    }
  }

  /** The keys at hand, each once, and all of them still to be scanned. */
  ghost predicate ToScan(ks: seq<Key>, before: Entries, seen: set<Key>, b: Entries, a: Entries, doneB: set<Key>) {
    Enumerates(ks, before) && Scannable(before, seen, b, a, doneB)
  }

  ghost predicate Scanning(acc: Accumulator, ks: seq<Key>, i: nat, names: seq<string>,
                           b: Entries, a: Entries, doneA: set<Key>, doneB: set<Key>, done: set<Key>)
    reads acc
  {
    i <= |ks| && Comparing(acc, b, a, doneA, done, names) && done == doneB + Elements(ks, i)
  }

  method ScanNext(acc: Accumulator, ks: seq<Key>, i: nat, before: Entries, seen: set<Key>, ghost names: seq<string>,
                  ghost b: Entries, ghost a: Entries, ghost doneA: set<Key>, ghost doneB: set<Key>,
                    ghost done: set<Key>)
    returns (granted: bool, ghost more: set<Key>)
    requires i < |ks| && Scanning(acc, ks, i, names, b, a, doneA, doneB, done)
    requires ToScan(ks, before, seen, b, a, doneB)
    modifies acc
    ensures granted ==> Scanning(acc, ks, i + 1, names, b, a, doneA, doneB, more)
  {
    more := done + {ks[i]};
    NextToScan(ks, i, before, seen, b, a, doneB, done);
    var scanned := ScanBefore(acc, ks[i] in seen, ks[i], before[ks[i]], names, b, a, doneA, done);
    granted := scanned.Success?;
  }

  lemma NextToScan(ks: seq<Key>, i: nat, before: Entries, seen: set<Key>, b: Entries, a: Entries, doneB: set<Key>,
                   done: set<Key>)
    requires i < |ks| && ToScan(ks, before, seen, b, a, doneB)
    requires done == doneB + Elements(ks, i)
    ensures var k := ks[i]; k in before && k in b && b[k] == before[k] && k !in done && (k in seen <==> k in a)
    ensures done + {ks[i]} == doneB + Elements(ks, i + 1)
  {
    assert ks[i] in ks;
    ElementsSnoc(ks, i);
  }

  lemma AllElements(ks: seq<Key>, keys: set<Key>)
    requires forall k :: k in ks <==> k in keys
    ensures Elements(ks, |ks|) == keys
  {
  }

  lemma NoElements(ks: seq<Key>, keys: set<Key>)
    ensures keys + Elements(ks, 0) == keys
  {
  }

  ghost function Elements<T>(s: seq<T>, n: nat): set<T>
    requires n <= |s|
  {
    set i | 0 <= i < n :: s[i]
  }

  lemma ElementsSnoc<T>(s: seq<T>, i: nat)
    requires i < |s|
    ensures Elements(s, i + 1) == Elements(s, i) + {s[i]}
  {
  }

  lemma NothingCompared(acc: Accumulator, b: Entries, a: Entries, names: seq<string>)
    requires acc.Valid() && acc.log.added == acc.log.removed == [] && acc.log.changed == []
    ensures Comparing(acc, b, a, {}, {}, names)
  {
    assert {} - b.Keys == {} && {} - a.Keys == {} && ChangedIn({}, b, a) == {};
    assert Keys(acc.log.changed, RowKey) == [];
  }
}
