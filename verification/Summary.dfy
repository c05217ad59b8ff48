/**
 What exact state reports about a collection of (value, row) pairs, first as a function of the
 multiset alone, then as the single pass over the sorted records that computes it.
 */
module Summary {
  import opened Bytes
  import opened Sorting
  import opened Records

  datatype DuplicateSample = DuplicateSample(firstRow: nat, duplicateRow: nat)

  datatype ExactSummary = ExactSummary(distinctCount: nat, duplicateCount: nat, samples: seq<DuplicateSample>)

  function Take<T>(s: seq<T>, n: nat): seq<T> { if |s| <= n then s else s[..n] }

  // ----- the specification: no order of arrival, no runs, no segments ----------------------------

  ghost function Values(m: multiset<Record>): set<OwnedValue> { set r | r in m :: r.value }

  /** `r` carries the lowest row of its value. */
  ghost predicate Leads(r: Record, m: multiset<Record>) {
    r in m && forall q | q in m && q.value == r.value :: r.row <= q.row
  }

  /** One leading record per distinct value. */
  ghost function Leaders(m: multiset<Record>): set<Record> { set r | r in m && Leads(r, m) }

  lemma {:induction false} LeaderExists(v: OwnedValue, m: multiset<Record>, r: Record)
    requires r in m && r.value == v
    ensures exists q :: Leads(q, m) && q.value == v
    decreases r.row
  {
    if !Leads(r, m) {
      var q :| q in m && q.value == r.value && q.row < r.row;
      LeaderExists(v, m, q);
    }
  }

  ghost function LowestRow(v: OwnedValue, m: multiset<Record>): nat
    requires v in Values(m)
  {
    var r :| r in m && r.value == v;
    LeaderExists(v, m, r);
    var q :| Leads(q, m) && q.value == v;
    q.row
  }

  lemma LowestRowIs(r: Record, m: multiset<Record>)
    requires Leads(r, m)
    ensures LowestRow(r.value, m) == r.row
  {
    var q :| Leads(q, m) && q.value == r.value && q.row == LowestRow(r.value, m);
  }

  /** Every record but the leading one of each value, in order, with the row it duplicates. */
  ghost function Duplicates(m: multiset<Record>): seq<DuplicateSample> {
    PairAll(InOrder(m - multiset(Leaders(m))), m)
  }

  ghost function PairAll(s: seq<Record>, m: multiset<Record>): seq<DuplicateSample> {
    seq(|s|, i requires 0 <= i < |s| => DuplicateSample(if s[i].value in Values(m) then LowestRow(s[i].value, m)
                                                        else 0, s[i].row))
  }

  ghost predicate Summarizes(r: ExactSummary, m: multiset<Record>, maxSamples: nat) {
    && r.distinctCount == |Values(m)|
    && r.distinctCount + r.duplicateCount == |m|
    && r.samples == Take(Duplicates(m), maxSamples)
  }

  /** The records the samples are taken from. */
  ghost function DuplicateRecords(m: multiset<Record>): seq<Record> { InOrder(m - multiset(Leaders(m))) }

  /** They are all records but one lowest-row record of each value, in order. */
  lemma DuplicateRecordsAre(m: multiset<Record>, r: Record)
    ensures |DuplicateRecords(m)| == |Duplicates(m)| && Ascending(DuplicateRecords(m))
    ensures multiset(DuplicateRecords(m))[r] ==
            if r in m && (forall q | q in m && q.value == r.value :: r.row <= q.row) then m[r] - 1 else m[r]
  {
    assert r in Leaders(m) <==> r in m && forall q | q in m && q.value == r.value :: r.row <= q.row;
  }

  lemma FirstRow(m: multiset<Record>, r: Record) returns (q: Record)
    requires r in m
    ensures q in m && q.value == r.value && q.row == LowestRow(r.value, m)
    ensures forall p | p in m && p.value == r.value :: q.row <= p.row
  {
    LowestLeads(r.value, m);
    q :| Leads(q, m) && q.value == r.value && q.row == LowestRow(r.value, m);
  }

  /** A sample names the row of one of them, beside the lowest row of its value. */
  lemma DuplicateAt(m: multiset<Record>, i: nat)
    requires i < |Duplicates(m)|
    ensures i < |DuplicateRecords(m)|
    ensures var r, sample := DuplicateRecords(m)[i], Duplicates(m)[i];
            && r in m && sample.duplicateRow == r.row
            && (exists q :: q in m && q.value == r.value && q.row == sample.firstRow)
            && forall q | q in m && q.value == r.value :: sample.firstRow <= q.row
  {
    var r := DuplicateRecords(m)[i];
    assert r in multiset(DuplicateRecords(m));
    var q := FirstRow(m, r);
  }

  /**
   Records in order: kinds as declared, numbers and patterns by size, byte strings by their first difference,
   and equal values by row.
   */
  lemma AscendingMeans(records: seq<Record>, i: nat, j: nat)
    requires Ascending(records) && i < j < |records|
    ensures var (a, b) := (records[i].value, records[j].value);
            && (a == b ==> records[i].row <= records[j].row)
            && (b.Signed? ==> a.Signed? && a.i <= b.i)
            && (b.Unsigned? ==> a.Signed? || (a.Unsigned? && a.u <= b.u))
            && (b.FloatBits? ==> a.Signed? || a.Unsigned? || (a.FloatBits? && a.bits <= b.bits))
            && (a.ByteString? ==> b.ByteString?)
            && (a.ByteString? ==>
                || a.bytes <= b.bytes
                || exists p :: 0 <= p < |a.bytes| && p < |b.bytes| && a.bytes[..p] == b.bytes[..p] &&
                                 a.bytes[p] < b.bytes[p])
  {
    assert RecordLeq(records[i], records[j]);
    ValueMeans(records[i].value, records[j].value);
  }

  /** The multiset of records determines the whole summary. */
  lemma SummaryDetermined(a: ExactSummary, b: ExactSummary, m: multiset<Record>, maxSamples: nat)
    requires Summarizes(a, m, maxSamples) && Summarizes(b, m, maxSamples)
    ensures a == b
  {
  }

  /** There are exactly as many duplicates as the count says, so samples == min(duplicates, limit). */
  lemma SampleCount(r: ExactSummary, m: multiset<Record>, maxSamples: nat)
    requires Summarizes(r, m, maxSamples)
    ensures |r.samples| == if r.duplicateCount <= maxSamples then r.duplicateCount else maxSamples
  {
    LeadersPerValue(m);
    assert multiset(Leaders(m)) <= m;
    assert |m - multiset(Leaders(m))| == |m| - |Leaders(m)|;
    assert |InOrder(m - multiset(Leaders(m)))| == |multiset(InOrder(m - multiset(Leaders(m))))|;
  }

  /** The fields of a summary: distinct values, records beyond them, and the first of the duplicates. */
  lemma SummaryMeans(r: ExactSummary, m: multiset<Record>, maxSamples: nat)
    requires Summarizes(r, m, maxSamples)
    ensures r.distinctCount == |(set q | q in m :: q.value)| && r.distinctCount + r.duplicateCount == |m|
    ensures |r.samples| == (if r.duplicateCount <= maxSamples then r.duplicateCount else maxSamples)
    ensures |r.samples| <= |Duplicates(m)| && forall i | 0 <= i < |r.samples| :: r.samples[i] == Duplicates(m)[i]
  {
    SampleCount(r, m, maxSamples);
  }

  lemma LeadersPerValue(m: multiset<Record>)
    ensures |Leaders(m)| == |Values(m)|
  {
    var lowest := map v | v in Values(m) :: Record(v, LeaderRow(v, m));
    forall v | v in Values(m) ensures lowest[v] in Leaders(m) {
      LowestLeads(v, m);
    }
    SameSize(Values(m), Leaders(m), lowest);
  }

  ghost function LeaderRow(v: OwnedValue, m: multiset<Record>): u64
    requires v in Values(m)
  {
    LowestLeads(v, m);
    LowestRow(v, m)
  }

  lemma LowestLeads(v: OwnedValue, m: multiset<Record>)
    requires v in Values(m)
    ensures exists q :: Leads(q, m) && q.value == v && q.row == LowestRow(v, m)
  {
    var r :| r in m && r.value == v;
    LeaderExists(v, m, r);
    var q :| Leads(q, m) && q.value == v;
    LowestRowIs(q, m);
  }

  /** A map whose values carry their own keys and hit every leader is a bijection. */
  lemma {:induction false} SameSize(values: set<OwnedValue>, leaders: set<Record>, lowest: map<OwnedValue, Record>)
    requires lowest.Keys == values
    requires forall v | v in values :: lowest[v] in leaders && lowest[v].value == v
    requires forall r | r in leaders :: r.value in values && lowest[r.value] == r
    ensures |leaders| == |values|
    decreases values
  {
    if values == {} {
      assert leaders == {};
    } else {
      var v :| v in values;
      SameSize(values - {v}, leaders - {lowest[v]}, lowest - {v});
    }
  }

  // ----- the single pass over sorted records -----------------------------------------------------

  /** Index of the first record carrying the value of `s[i]`, when `s` is ascending. */
  function LeaderIndex(s: seq<Record>, i: nat): (j: nat)
    requires i < |s|
    ensures j <= i && s[j].value == s[i].value
  {
    if i == 0 || s[i - 1].value != s[i].value then i else LeaderIndex(s, i - 1)
  }

  /** Positions that hold the first record of their value. */
  ghost function LeaderCount(s: seq<Record>, n: nat): nat
    requires n <= |s|
  {
    if n == 0 then 0 else LeaderCount(s, n - 1) + if LeaderIndex(s, n - 1) == n - 1 then 1 else 0
  }

  ghost function PassDuplicates(s: seq<Record>, n: nat): seq<DuplicateSample>
    requires n <= |s|
  {
    if n == 0 then []
    else
      var j := LeaderIndex(s, n - 1);
      PassDuplicates(s, n - 1) + if j == n - 1 then [] else [DuplicateSample(s[j].row, s[n - 1].row)]
  }

  /** The non-leading records of a prefix, in order. */
  ghost function Followers(s: seq<Record>, n: nat): seq<Record>
    requires n <= |s|
  {
    if n == 0 then []
    else if LeaderIndex(s, n - 1) == n - 1 then Followers(s, n - 1)
    else Followers(s, n - 1) + [s[n - 1]]
  }

  ghost function LeadingRecords(s: seq<Record>, n: nat): set<Record>
    requires n <= |s|
  {
    if n == 0 then {}
    else if LeaderIndex(s, n - 1) == n - 1 then LeadingRecords(s, n - 1) + {s[n - 1]}
    else LeadingRecords(s, n - 1)
  }

  lemma {:induction false} LeadingIndex(s: seq<Record>, n: nat, r: Record) returns (i: nat)
    requires n <= |s| && r in LeadingRecords(s, n)
    ensures i < n && LeaderIndex(s, i) == i && s[i] == r
  {
    if r in LeadingRecords(s, n - 1) {
      i := LeadingIndex(s, n - 1, r);
    } else {
      i := n - 1;
    }
  }

  lemma {:induction false} LeadingAt(s: seq<Record>, n: nat, i: nat)
    requires i < n <= |s| && LeaderIndex(s, i) == i
    ensures s[i] in LeadingRecords(s, n)
  {
    if i < n - 1 {
      LeadingAt(s, n - 1, i);
    }
  }

  lemma {:induction false} EqualValuesShareLeader(s: seq<Record>, i: nat, k: nat)
    requires Ascending(s) && k <= i < |s| && s[k].value == s[i].value
    ensures LeaderIndex(s, i) <= k
  {
    if k < i {
      ValueTotal(s[k].value, s[i - 1].value);
      assert RecordLeq(s[k], s[i - 1]) && RecordLeq(s[i - 1], s[i]);
      ValueTotal(s[i - 1].value, s[i].value);
      EqualValuesShareLeader(s, i - 1, k);
    }
  }

  /** In ascending order the first record of a value has its lowest row. */
  lemma LeaderIndexLeads(s: seq<Record>, i: nat)
    requires Ascending(s) && i < |s|
    ensures Leads(s[LeaderIndex(s, i)], multiset(s))
  {
    var j := LeaderIndex(s, i);
    forall q | q in multiset(s) && q.value == s[j].value ensures s[j].row <= q.row {
      var k :| 0 <= k < |s| && s[k] == q;
      if k < j {
        EqualValuesShareLeader(s, i, k);
      } else if j < k {
        assert RecordLeq(s[j], s[k]);
      }
    }
  }

  lemma {:induction false} FollowersContents(s: seq<Record>, n: nat)
    requires Ascending(s) && n <= |s|
    ensures multiset(s[..n]) == multiset(LeadingRecords(s, n)) + multiset(Followers(s, n))
  {
    if n > 0 {
      var last, leading, followers := s[n - 1], LeadingRecords(s, n - 1), Followers(s, n - 1);
      FollowersContents(s, n - 1);
      assert s[..n] == s[..n - 1] + [last];
      MultisetSnoc(s[..n - 1], last);
      PlusOne(multiset(leading), multiset(followers), last);
      if LeaderIndex(s, n - 1) == n - 1 {
        NewLeaderIsNew(s, n - 1);
        MultisetOfInsert(leading, last);
      } else {
        MultisetSnoc(followers, last);
      }
    }
  }

  lemma {:induction false} LeadersCounted(s: seq<Record>, n: nat)
    requires Ascending(s) && n <= |s|
    ensures |LeadingRecords(s, n)| == LeaderCount(s, n)
  {
    if n > 0 {
      LeadersCounted(s, n - 1);
      if LeaderIndex(s, n - 1) == n - 1 {
        NewLeaderIsNew(s, n - 1);
      }
    }
  }

  lemma NewLeaderIsNew(s: seq<Record>, n: nat)
    requires Ascending(s) && n < |s| && LeaderIndex(s, n) == n
    ensures s[n] !in LeadingRecords(s, n)
  {
    if s[n] in LeadingRecords(s, n) {
      var i := LeadingIndex(s, n, s[n]);
      EqualValuesShareLeader(s, n, i);
    }
  }

  lemma MultisetOfInsert<T>(s: set<T>, x: T)
    requires x !in s
    ensures multiset(s + {x}) == multiset(s) + multiset{x} && |s + {x}| == |s| + 1
  {
  }

  lemma LeadingRecordsAreLeaders(s: seq<Record>)
    requires Ascending(s)
    ensures LeadingRecords(s, |s|) == Leaders(multiset(s))
  {
    var m := multiset(s);
    forall r | r in LeadingRecords(s, |s|) ensures r in Leaders(m) {
      var i := LeadingIndex(s, |s|, r);
      LeaderIndexLeads(s, i);
    }
    forall r | r in Leaders(m) ensures r in LeadingRecords(s, |s|) {
      var i :| 0 <= i < |s| && s[i] == r;
      LeaderIndexLeads(s, i);
      var j := LeaderIndex(s, i);
      assert s[j] == r;
      LeaderOfLeader(s, i);
      LeadingAt(s, |s|, j);
    }
  }

  lemma {:induction false} LeaderOfLeader(s: seq<Record>, i: nat)
    requires i < |s|
    ensures LeaderIndex(s, LeaderIndex(s, i)) == LeaderIndex(s, i)
  {
    if i > 0 && s[i - 1].value == s[i].value {
      LeaderOfLeader(s, i - 1);
    }
  }

  lemma {:induction false} FollowersAscend(s: seq<Record>, n: nat)
    requires Ascending(s) && n <= |s|
    ensures Ascending(Followers(s, n)) && forall r | r in Followers(s, n) :: r in s[..n]
  {
    if n > 0 {
      FollowersAscend(s, n - 1);
      var f := Followers(s, n - 1);
      forall i | 0 <= i < |f| ensures RecordLeq(f[i], s[n - 1]) && f[i] in s[..n] {
        assert f[i] in s[..n - 1];
        var k :| 0 <= k < n - 1 && s[k] == f[i];
        assert s[..n][k] == f[i];
      }
      assert s[..n][n - 1] == s[n - 1];
    }
  }

  lemma {:induction false} PassIsPairing(s: seq<Record>, n: nat)
    requires Ascending(s) && n <= |s|
    ensures PassDuplicates(s, n) == PairAll(Followers(s, n), multiset(s))
  {
    if n > 0 {
      PassIsPairing(s, n - 1);
      LeaderIndexLeads(s, n - 1);
      LowestRowIs(s[LeaderIndex(s, n - 1)], multiset(s));
      assert s[n - 1] in multiset(s);
    }
  }

  /** The pass over the sorted records computes the summary of their multiset. */
  lemma PassSummarizes(s: seq<Record>)
    requires Ascending(s)
    ensures LeaderCount(s, |s|) == |Values(multiset(s))|
    ensures PassDuplicates(s, |s|) == Duplicates(multiset(s))
  {
    LeadersCounted(s, |s|);
    LeadingRecordsAreLeaders(s);
    LeadersPerValue(multiset(s));
    FollowersAreRest(s);
    PassIsPairing(s, |s|);
  }

  /** The records that do not lead, in the order of the pass, are the multiset without its leaders. */
  lemma FollowersAreRest(s: seq<Record>)
    requires Ascending(s)
    ensures InOrder(multiset(s) - multiset(Leaders(multiset(s)))) == Followers(s, |s|)
  {
    var m := multiset(s);
    assert s[..|s|] == s;
    FollowersContents(s, |s|);
    LeadingRecordsAreLeaders(s);
    FollowersAscend(s, |s|);
    InOrderIs(Followers(s, |s|));
    assert m - multiset(Leaders(m)) == multiset(Followers(s, |s|));
  }

  /** The state of the pass after `n` records, with samples cut at `maxSamples`. */
  ghost predicate PassAt(s: seq<Record>, n: nat, maxSamples: nat, distinct: nat, duplicates: nat,
                         samples: seq<DuplicateSample>) {
    && n <= |s|
    && distinct == LeaderCount(s, n) && distinct + duplicates == n
    && samples == Take(PassDuplicates(s, n), maxSamples)
  }

  lemma PassDone(s: seq<Record>, maxSamples: nat, distinct: nat, duplicates: nat, samples: seq<DuplicateSample>)
    requires Ascending(s) && PassAt(s, |s|, maxSamples, distinct, duplicates, samples)
    ensures Summarizes(ExactSummary(distinct, duplicates, samples), multiset(s), maxSamples)
  {
    PassSummarizes(s);
  }

  /** One step of the pass: record `n` either repeats the value of its predecessor or starts a new one. */
  lemma PassStep(s: seq<Record>, n: nat, maxSamples: nat, distinct: nat, duplicates: nat, samples: seq<DuplicateSample>)
    requires n < |s| && PassAt(s, n, maxSamples, distinct, duplicates, samples)
    ensures n > 0 && s[n - 1].value == s[n].value ==>
              && LeaderIndex(s, n) == LeaderIndex(s, n - 1)
              && PassAt(s, n + 1, maxSamples, distinct, duplicates + 1,
                        if |samples| < maxSamples
                        then samples + [DuplicateSample(s[LeaderIndex(s, n - 1)].row, s[n].row)] else samples)
    ensures n == 0 || s[n - 1].value != s[n].value ==>
              LeaderIndex(s, n) == n && PassAt(s, n + 1, maxSamples, distinct + 1, duplicates, samples)
  {
    assert PassDuplicates(s, n) + [] == PassDuplicates(s, n);
  }

  /** The tail of `finish_fixed_in_memory` and `finish_bytes_in_memory`: sort, then count. */
  method CountInMemory<A>(records: seq<A>, record: A -> Record, maxSamples: nat) returns (r: Result<ExactSummary>)
    ensures r.Success? ==> Summarizes(r.value, multiset(Keys(records, record)), maxSamples)
    ensures r.Failure? ==> r.error.Limit?
  {
    RecordOrder();
    SortByKeys(records, record, RecordLeq);
    r := CountSorted(SortBy(records, record, RecordLeq), record, maxSamples);
  }

  method CountSorted<A>(sorted: seq<A>, record: A -> Record, maxSamples: nat) returns (r: Result<ExactSummary>)
    requires Ascending(Keys(sorted, record))
    ensures r.Success? ==> Summarizes(r.value, multiset(Keys(sorted, record)), maxSamples)
    ensures r.Failure? ==> r.error.Limit?
  {
    ghost var s := Keys(sorted, record);
    var distinct, duplicates, samples := 0, 0, [];
    var previous: Option<nat> := None;
    for index := 0 to |sorted|
      invariant PassAt(s, index, maxSamples, distinct, duplicates, samples)
      invariant previous == if index == 0 then None else Some(LeaderIndex(s, index - 1))
    {
      var cancelled: bool := *;
      if cancelled {
        return Failure(Limit);
      }
      PassStep(s, index, maxSamples, distinct, duplicates, samples);
      var current := record(sorted[index]);
      if previous.Some? && record(sorted[previous.value]).value == current.value {
        duplicates := duplicates + 1;
        if |samples| < maxSamples {
          samples := samples + [DuplicateSample(record(sorted[previous.value]).row, current.row)];
        }
      } else {
        distinct := distinct + 1;
        previous := Some(index);
      }
    }
    PassDone(s, maxSamples, distinct, duplicates, samples);
    r := Success(ExactSummary(distinct, duplicates, samples));
  }
}
