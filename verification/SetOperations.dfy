/**
 Set operations over sealed exact states: distinct keys of one side that the other side lacks
 (reference rules) and keys both sides share (leakage detection).
 */
module SetOperations {
  import opened Bytes
  import opened Sorting
  import opened Records
  import opened RunFile
  import opened Merge
  import opened Summary
  import opened ExactState

  // ----- distinct keys ---------------------------------------------------------------------------

  function DropValue(s: seq<Record>, v: OwnedValue): (r: seq<Record>)
    ensures |r| <= |s|
  {
    if s != [] && s[0].value == v then DropValue(s[1..], v) else s
  }

  /** The first record of each value of an ascending sequence. */
  function Uniques(s: seq<Record>): seq<Record>
    decreases |s|
  {
    if s == [] then [] else [s[0]] + Uniques(DropValue(s[1..], s[0].value))
  }

  predicate ValueLess(a: OwnedValue, b: OwnedValue) { ValueLeq(a, b) && a != b }

  lemma ValueLessTransitive(a: OwnedValue, b: OwnedValue, c: OwnedValue)
    requires ValueLess(a, b) && ValueLess(b, c)
    ensures ValueLess(a, c)
  {
    ValueTransitive(a, b, c);
    ValueTotal(a, b);
  }

  /** Strictly increasing values. */
  ghost predicate Increasing(s: seq<Record>) {
    forall i, j {:trigger ValueLess(s[i].value, s[j].value)} | 0 <= i < j < |s| :: ValueLess(s[i].value, s[j].value)
  }

  ghost function ValueSet(s: seq<Record>): set<OwnedValue> { set r | r in s :: r.value }

  lemma {:induction false} DropValueSuffix(s: seq<Record>, v: OwnedValue)
    requires Ascending(s) && forall r | r in s :: ValueLeq(v, r.value)
    ensures var d := DropValue(s, v);
            && Ascending(d)
            && (forall r | r in d :: r in s && ValueLess(v, r.value))
            && (forall r | r in s && r.value != v :: r in d)
    decreases |s|
  {
    if s != [] && s[0].value == v {
      SortedTail(s, RecordLeq);
      DropValueSuffix(s[1..], v);
    } else {
      forall r | r in s ensures ValueLess(v, r.value) {
        var i :| 0 <= i < |s| && s[i] == r;
        if i > 0 {
          assert RecordLeq(s[0], s[i]);
          ValueTotal(v, s[0].value);
          ValueTotal(s[0].value, s[i].value);
        }
      }
    }
  }

  /** `Uniques` is the increasing list of records that lead their value. */
  lemma {:induction false} UniquesLead(s: seq<Record>)
    requires Ascending(s)
    ensures Increasing(Uniques(s)) && forall r :: r in Uniques(s) <==> Leads(r, multiset(s))
    decreases |s|
  {
    if s != [] {
      var head, rest := s[0], DropValue(s[1..], s[0].value);
      forall r | r in s[1..] ensures RecordLeq(head, r) && ValueLeq(head.value, r.value) {
        var i :| 0 <= i < |s[1..]| && s[1..][i] == r;
        assert RecordLeq(s[0], s[i + 1]);
        ValueTotal(head.value, head.value);
      }
      SortedTail(s, RecordLeq);
      DropValueSuffix(s[1..], head.value);
      UniquesLead(rest);
      HeadLeads(s, rest);
      IncreasingCons(head, Uniques(rest));
    }
  }

  lemma HeadLeads(s: seq<Record>, rest: seq<Record>)
    requires s != [] && forall r | r in s[1..] :: RecordLeq(s[0], r)
    requires forall r | r in rest :: r in s[1..] && r.value != s[0].value
    requires forall r | r in s[1..] && r.value != s[0].value :: r in rest
    ensures forall r :: Leads(r, multiset(s)) <==> r == s[0] || Leads(r, multiset(rest))
  {
    assert s == [s[0]] + s[1..];
    forall r ensures r in multiset(s) <==> r == s[0] || r in s[1..] {
    }
    forall r ensures Leads(r, multiset(s)) <==> r == s[0] || Leads(r, multiset(rest)) {
      assert r.value == s[0].value && r in s[1..] ==> RecordLeq(s[0], r);
    }
  }

  lemma IncreasingCons(head: Record, rest: seq<Record>)
    requires Increasing(rest) && forall r | r in rest :: ValueLess(head.value, r.value)
    ensures Increasing([head] + rest)
  {
  }

  lemma IncreasingAscends(s: seq<Record>)
    requires Increasing(s)
    ensures Ascending(s) && multiset(s) == multiset(set r | r in s)
  {
    forall i, j | 0 <= i < j < |s| ensures RecordLeq(s[i], s[j]) {
      assert ValueLess(s[i].value, s[j].value);
    }
    IncreasingIsSet(s);
  }

  lemma {:induction false} IncreasingIsSet(s: seq<Record>)
    requires Increasing(s)
    ensures multiset(s) == multiset(set r | r in s)
    decreases |s|
  {
    if s != [] {
      var n := |s| - 1;
      var init, last := s[..n], s[n];
      IncreasingIsSet(init);
      forall i | 0 <= i < n ensures init[i] != last {
        assert ValueLess(s[i].value, s[n].value);
      }
      assert s == init + [last];
      assert (set r | r in s) == (set r | r in init) + {last};
      MultisetOfInsert((set r | r in init), last);
    }
  }

  /** The leading records of a collection, in increasing order of value. */
  ghost function LeadersInOrder(m: multiset<Record>): seq<Record> { InOrder(multiset(Leaders(m))) }

  lemma UniquesAreLeaders(s: seq<Record>)
    requires Ascending(s)
    ensures Uniques(s) == LeadersInOrder(multiset(s)) && Increasing(Uniques(s))
    ensures ValueSet(Uniques(s)) == Values(multiset(s)) && |Uniques(s)| == |Values(multiset(s))|
  {
    var u, m := Uniques(s), multiset(s);
    UniquesLead(s);
    IncreasingAscends(u);
    assert (set r | r in u) == Leaders(m);
    InOrderIs(u);
    LeadersPerValue(m);
    assert |u| == |multiset(u)|;
    forall v | v in Values(m) ensures v in ValueSet(u) {
      var r :| r in m && r.value == v;
      LeaderExists(v, m, r);
    }
  }

  // ----- UniqueMerge -----------------------------------------------------------------------------

  class UniqueMerge {
    const source: MergeSource
    /** The distinct records to deliver, increasing by value, and how many have been delivered. */
    ghost const keys: seq<Record>
    ghost var taken: nat

    ghost predicate Valid()
      reads this, source
    {
      source.Valid() && Ascending(source.queue) && taken <= |keys| && keys[taken..] == Uniques(source.queue)
    }

    constructor (source: MergeSource)
      requires source.Valid() && Ascending(source.queue)
      ensures Valid() && this.source == source && keys == Uniques(source.queue) && taken == 0
    {
      this.source := source;
      keys, taken := Uniques(source.queue), 0;
    }

    /** `next_unique_with_row`: the next value with its lowest row; its duplicates are drained. */
    method Next() returns (r: Result<Option<Record>>)
      requires Valid()
      modifies this, source
      ensures r.Success? ==> Valid()
      ensures r.Success? ==> r.value == if old(taken) < |keys| then Some(keys[old(taken)]) else None
      ensures r.Success? ==> taken == if old(taken) < |keys| then old(taken) + 1 else old(taken)
    {
      var cancelled: bool := *;
      if cancelled {
        return Failure(Limit);
      }
      r := TakeUnique(source);
      if r.Failure? || r.value.None? {
        return;
      }
      DropHead(keys, taken, r.value.value, Uniques(source.queue));
      taken := taken + 1;
    }
  }

  /** Take the head of the queue and drain the records that repeat its value. */
  method TakeUnique(source: MergeSource) returns (r: Result<Option<Record>>)
    requires source.Valid() && Ascending(source.queue)
    modifies source
    ensures r.Success? ==> source.Valid() && Ascending(source.queue)
    ensures r.Success? ==>
            Uniques(old(source.queue)) == (if r.value.Some? then [r.value.value] else []) + Uniques(source.queue)
    ensures r.Success? && r.value.None? ==> Uniques(source.queue) == []
  {
    ghost var whole := source.queue;
    r := source.Take();
    if r.Failure? || r.value.None? {
      return;
    }
    ghost var rest := source.queue;
    var drained := DrainValue(source, r.value.value.value);
    if drained.Failure? {
      return Failure(drained.error);
    }
    NextUnique(whole, r.value.value, rest);
  }

  /** Take every record that carries `v` off the front of the queue. */
  method DrainValue(source: MergeSource, v: OwnedValue) returns (r: Result<()>)
    requires source.Valid()
    modifies source
    ensures r.Success? ==> source.Valid() && source.queue == DropValue(old(source.queue), v)
  {
    while true
      invariant source.Valid() && DropValue(source.queue, v) == DropValue(old(source.queue), v)
      decreases |source.queue|
    {
      ghost var before := source.queue;
      var candidate := source.Peek();
      if candidate.None? || candidate.value.value != v {
        return Success(());
      }
      var duplicate := source.Take();
      if duplicate.Failure? {
        return Failure(duplicate.error);
      }
      assert before[1..] == source.queue;
    }
  }

  lemma NextUnique(whole: seq<Record>, head: Record, rest: seq<Record>)
    requires whole == [head] + rest && Ascending(whole)
    ensures Ascending(DropValue(rest, head.value))
    ensures Uniques(whole) == [head] + Uniques(DropValue(rest, head.value))
  {
    assert whole[1..] == rest;
    SortedTail(whole, RecordLeq);
    forall r | r in rest ensures ValueLeq(head.value, r.value) {
      var i :| 0 <= i < |rest| && rest[i] == r;
      assert RecordLeq(head, rest[i]);
      ValueTotal(head.value, head.value);
    }
    DropValueSuffix(rest, head.value);
  }

  method OpenUnique(runs: seq<RunMeta>, ghost lists: seq<seq<Record>>, hash: HashFunction)
    returns (r: Result<UniqueMerge>)
    requires AllStore(runs, lists, hash)
    ensures r.Success? ==> fresh(r.value) && fresh(r.value.source) && r.value.Valid() && r.value.taken == 0
    ensures r.Success? ==> r.value.keys == LeadersInOrder(AllOf(lists))
    ensures r.Success? ==>
            Increasing(r.value.keys) && ValueSet(r.value.keys) == Values(AllOf(lists)) &&
              |r.value.keys| == |Values(AllOf(lists))|
  {
    var verified := VerifyAll(runs, lists, hash);
    if verified.Failure? {
      return Failure(verified.error);
    }
    var granted := Reserve();
    if !granted {
      return Failure(Limit);
    }
    var opening := OpenMerge(runs, lists, hash);
    if opening.Failure? {
      return Failure(opening.error);
    }
    UniquesAreLeaders(opening.value.queue);
    assert multiset(InOrder(AllOf(lists))) == AllOf(lists);
    var merge := new UniqueMerge(opening.value);
    r := Success(merge);
  }

  // ----- what the joins report -------------------------------------------------------------------

  /** The records of `s` whose value is, or is not, among `values`. */
  ghost function Select(s: seq<Record>, values: set<OwnedValue>, present: bool): seq<Record> {
    if s == [] then []
    else
      var n := |s| - 1;
      if (s[n].value in values) == present then Select(s[..n], values, present) + [s[n]]
      else Select(s[..n], values, present)
  }

  function Rows(s: seq<Record>): seq<nat> { seq(|s|, i requires 0 <= i < |s| => s[i].row) }

  lemma {:induction false} SelectCounts(s: seq<Record>, values: set<OwnedValue>)
    requires Increasing(s)
    ensures |Select(s, values, true)| == |ValueSet(s) * values|
    ensures |Select(s, values, false)| == |ValueSet(s) - values|
    decreases |s|
  {
    if s != [] {
      var n := |s| - 1;
      var init, last := s[..n], s[n].value;
      SelectCounts(init, values);
      ValueSetSnoc(s);
      SplitInsert(ValueSet(init), last, values);
    }
  }

  lemma ValueSetSnoc(s: seq<Record>)
    requires s != [] && Increasing(s)
    ensures var init, last := s[..|s| - 1], s[|s| - 1];
            ValueSet(s) == ValueSet(init) + {last.value} && last.value !in ValueSet(init)
  {
    var n := |s| - 1;
    forall i | 0 <= i < n ensures s[..n][i].value != s[n].value {
      assert ValueLess(s[i].value, s[n].value);
    }
    assert s == s[..n] + [s[n]];
  }

  lemma SplitInsert<T>(s: set<T>, x: T, values: set<T>)
    requires x !in s
    ensures x in values ==> |(s + {x}) * values| == |s * values| + 1 && (s + {x}) - values == s - values
    ensures x !in values ==> |(s + {x}) - values| == |s - values| + 1 && (s + {x}) * values == s * values
  {
    if x in values {
      assert (s + {x}) * values == (s * values) + {x};
    } else {
      assert (s + {x}) - values == (s - values) + {x};
    }
  }

  datatype AntiJoinSummary = AntiJoinSummary(leftDistinct: nat, rightDistinct: nat, missing: nat, samples: seq<nat>)

  datatype IntersectionSummary = IntersectionSummary(leftDistinct: nat, rightDistinct: nat, overlap: nat,
                                                     samples: seq<seq<byte>>)

  /** |L|, |R| and |L \ R| over distinct values, with the first rows of the first missing keys. */
  ghost predicate IsAntiJoin(r: AntiJoinSummary, left: multiset<Record>, right: multiset<Record>, maxSamples: nat) {
    && r.leftDistinct == |Values(left)| && r.rightDistinct == |Values(right)|
    && r.missing == |Values(left) - Values(right)|
    && r.samples == Take(Rows(Select(LeadersInOrder(left), Values(right), false)), maxSamples)
  }

  ghost predicate IsIntersection(r: IntersectionSummary, left: multiset<Record>, right: multiset<Record>,
                                 maxSamples: nat) {
    && r.leftDistinct == |Values(left)| && r.rightDistinct == |Values(right)|
    && r.overlap == |Values(left) * Values(right)|
    && Digests(Select(LeadersInOrder(left), Values(right), true), r.samples, maxSamples)
  }

  ghost predicate Digests(common: seq<Record>, samples: seq<seq<byte>>, maxSamples: nat) {
    && |samples| == |Take(common, maxSamples)|
    && forall i | 0 <= i < |samples| :: common[i].value == ByteString(samples[i]) && |samples[i]| == 32
  }

  /** The two operations split the left keys between them. */
  lemma MissingPlusOverlap(a: AntiJoinSummary, b: IntersectionSummary, left: multiset<Record>, right: multiset<Record>,
                           m: nat, n: nat)
    requires IsAntiJoin(a, left, right, m) && IsIntersection(b, left, right, n)
    ensures a.missing + b.overlap == a.leftDistinct == b.leftDistinct && a.rightDistinct == b.rightDistinct
  {
    var l, r := Values(left), Values(right);
    assert l == (l - r) + (l * r) && (l - r) * (l * r) == {};
  }

  /** How far a join has read: `current` is key `i`, or nothing is left. */
  ghost predicate At(keys: seq<Record>, i: nat, current: Option<Record>, taken: nat, counted: nat) {
    && i <= |keys|
    && current == (if i < |keys| then Some(keys[i]) else None)
    && taken == counted == (if i < |keys| then i + 1 else i)
  }

  method Advance(merge: UniqueMerge, ghost i: nat, ghost current: Option<Record>, count: nat)
    returns (r: Result<Option<Record>>, counted: nat)
    requires merge.Valid() && i < |merge.keys| && At(merge.keys, i, current, merge.taken, count)
    modifies merge, merge.source
    ensures r.Success? ==> merge.Valid() && At(merge.keys, i + 1, r.value, merge.taken, counted)
  {
    r := merge.Next();
    counted := if r.Success? && r.value.Some? then count + 1 else count;
  }

  method First(merge: UniqueMerge) returns (r: Result<Option<Record>>, counted: nat)
    requires merge.Valid() && merge.taken == 0
    modifies merge, merge.source
    ensures r.Success? ==> merge.Valid() && At(merge.keys, 0, r.value, merge.taken, counted)
  {
    r := merge.Next();
    counted := if r.Success? && r.value.Some? then 1 else 0;
  }

  method StartSides(left: UniqueMerge, right: UniqueMerge)
    returns (r: Result<(Option<Record>, Option<Record>)>, leftCounted: nat, rightCounted: nat)
    requires left.Valid() && right.Valid() && left != right && left.source != right.source &&
             left.taken == right.taken == 0
    modifies left, left.source, right, right.source
    ensures r.Success? ==> left.Valid() && right.Valid()
    ensures r.Success? ==> At(left.keys, 0, r.value.0, left.taken, leftCounted)
    ensures r.Success? ==> At(right.keys, 0, r.value.1, right.taken, rightCounted)
  {
    rightCounted := 0;
    var l, t;
    l, leftCounted := First(left);
    if l.Failure? {
      r := Failure(l.error);
      return;
    }
    t, rightCounted := First(right);
    if t.Failure? {
      r := Failure(t.error);
      return;
    }
    r := Success((l.value, t.value));
  }

  /** Move past the current left key, the current right key, or both. */
  method AdvanceSides(left: UniqueMerge, right: UniqueMerge, ghost i: nat, ghost j: nat,
                      l: Option<Record>, t: Option<Record>, leftCount: nat, rightCount: nat, takeLeft: bool,
                        takeRight: bool,
                      ghost nextLeft: nat, ghost nextRight: nat)
    returns (r: Result<(Option<Record>, Option<Record>)>, leftCounted: nat, rightCounted: nat)
    requires left.Valid() && right.Valid() && left != right && left.source != right.source
    requires At(left.keys, i, l, left.taken, leftCount) && At(right.keys, j, t, right.taken, rightCount)
    requires (takeLeft ==> i < |left.keys|) && (takeRight ==> j < |right.keys|)
    requires nextLeft == (if takeLeft then i + 1 else i) && nextRight == (if takeRight then j + 1 else j)
    modifies left, left.source, right, right.source
    ensures r.Success? ==> left.Valid() && right.Valid()
    ensures r.Success? ==> At(left.keys, nextLeft, r.value.0, left.taken, leftCounted)
    ensures r.Success? ==> At(right.keys, nextRight, r.value.1, right.taken, rightCounted)
  {
    var first, second := Success(l), Success(t);
    leftCounted, rightCounted := leftCount, rightCount;
    if takeLeft {
      first, leftCounted := Advance(left, i, l, leftCount);
      if first.Failure? {
        r := Failure(first.error);
        return;
      }
    }
    if takeRight {
      second, rightCounted := Advance(right, j, t, rightCount);
      if second.Failure? {
        r := Failure(second.error);
        return;
      }
    }
    r := Success((first.value, second.value));
  }

  /** Everything on the right read so far is below the current left key. */
  ghost predicate Behind(ls: seq<Record>, i: nat, rs: seq<Record>, j: nat) {
    i < |ls| ==> forall k | 0 <= k < j && k < |rs| :: ValueLess(rs[k].value, ls[i].value)
  }

  lemma BehindNext(ls: seq<Record>, i: nat, rs: seq<Record>, j: nat)
    requires Increasing(ls) && Behind(ls, i, rs, j) && i < |ls|
    ensures Behind(ls, i + 1, rs, j)
    ensures j < |rs| && rs[j].value == ls[i].value ==> Behind(ls, i + 1, rs, j + 1)
  {
    if i + 1 < |ls| {
      assert ValueLess(ls[i].value, ls[i + 1].value);
      forall k | 0 <= k < j && k < |rs| ensures ValueLess(rs[k].value, ls[i + 1].value) {
        ValueLessTransitive(rs[k].value, ls[i].value, ls[i + 1].value);
      }
    }
  }

  /** A left key below the current right key, with everything earlier behind it, has no match. */
  lemma NoMatch(ls: seq<Record>, i: nat, rs: seq<Record>, j: nat)
    requires Increasing(rs) && Behind(ls, i, rs, j) && i < |ls| && j <= |rs|
    requires j < |rs| ==> ValueLess(ls[i].value, rs[j].value)
    ensures ls[i].value !in ValueSet(rs)
  {
    if ls[i].value in ValueSet(rs) {
      var k :| 0 <= k < |rs| && rs[k].value == ls[i].value;
      if k > j {
        assert ValueLess(rs[j].value, rs[k].value);
        ValueTotal(ls[i].value, rs[j].value);
      }
    }
  }

  lemma SelectStep(s: seq<Record>, i: nat, values: set<OwnedValue>, present: bool)
    requires i < |s|
    ensures Select(s[..i + 1], values, present)
            == if (s[i].value in values) == present then Select(s[..i], values, present) + [s[i]]
              else Select(s[..i], values, present)
  {
    assert s[..i + 1][..i] == s[..i];
  }

  /** Read and count the keys one side still holds. */
  method ReadRest(merge: UniqueMerge, ghost start: nat, first: Option<Record>, counted: nat) returns (r: Result<nat>)
    requires merge.Valid() && At(merge.keys, start, first, merge.taken, counted)
    modifies merge, merge.source
    ensures r.Success? ==> merge.Valid() && r.value == |merge.keys|
  {
    var current, count := first, counted;
    ghost var i, n := start, |merge.keys|;
    while current.Some?
      invariant Reading(merge, i, n, current, count)
      decreases n - i
    {
      r, current, count := ReadOne(merge, i, n, current, count);
      if r.Failure? {
        return;
      }
      i := i + 1;
    }
    r := Success(count);
  }

  /** A side of `n` keys, read up to and including key `i`. */
  ghost predicate Reading(merge: UniqueMerge, i: nat, n: nat, current: Option<Record>, count: nat)
    reads merge, merge.source
  {
    merge.Valid() && n == |merge.keys| && At(merge.keys, i, current, merge.taken, count)
  }

  method ReadOne(merge: UniqueMerge, ghost i: nat, ghost n: nat, ghost current: Option<Record>, count: nat)
    returns (r: Result<nat>, next: Option<Record>, counted: nat)
    requires Reading(merge, i, n, current, count) && current.Some?
    modifies merge, merge.source
    ensures i < n && (r.Success? ==> Reading(merge, i + 1, n, next, counted))
  {
    var step;
    step, counted := Advance(merge, i, current, count);
    if step.Failure? {
      return Failure(step.error), None, counted;
    }
    r, next := Success(counted), step.value;
  }

  method ReadBoth(left: UniqueMerge, right: UniqueMerge, ghost i: nat, ghost j: nat,
                  l: Option<Record>, t: Option<Record>, leftCount: nat, rightCount: nat) returns (r: Result<(nat, nat)>)
    requires left.Valid() && right.Valid() && left != right && left.source != right.source
    requires At(left.keys, i, l, left.taken, leftCount) && At(right.keys, j, t, right.taken, rightCount)
    modifies left, left.source, right, right.source
    ensures r.Success? ==> r.value == (|left.keys|, |right.keys|)
  {
    var leftTotal := ReadRest(left, i, l, leftCount);
    if leftTotal.Failure? {
      return Failure(leftTotal.error);
    }
    var rightTotal := ReadRest(right, j, t, rightCount);
    if rightTotal.Failure? {
      return Failure(rightTotal.error);
    }
    r := Success((leftTotal.value, rightTotal.value));
  }

  /** What an anti-join knows once it has read left keys below `i` and right keys below `j`. */
  ghost predicate MissingAt(ls: seq<Record>, i: nat, rs: seq<Record>, j: nat, missing: nat, samples: seq<nat>,
                            maxSamples: nat) {
    && i <= |ls| && j <= |rs| && Increasing(ls) && Increasing(rs) && Behind(ls, i, rs, j)
    && missing == |Select(ls[..i], ValueSet(rs), false)|
    && samples == Take(Rows(Select(ls[..i], ValueSet(rs), false)), maxSamples)
  }

  lemma MissingStep(ls: seq<Record>, i: nat, rs: seq<Record>, j: nat, missing: nat, samples: seq<nat>, maxSamples: nat)
    requires MissingAt(ls, i, rs, j, missing, samples, maxSamples) && i < |ls|
    ensures j == |rs| || ValueLess(ls[i].value, rs[j].value) ==>
              MissingAt(ls, i + 1, rs, j, missing + 1, if |samples| < maxSamples then samples + [ls[i].row]
                        else samples, maxSamples)
    ensures j < |rs| && ls[i].value == rs[j].value ==> MissingAt(ls, i + 1, rs, j + 1, missing, samples, maxSamples)
    ensures j < |rs| && ls[i].value != rs[j].value && !ValueLess(ls[i].value, rs[j].value) ==>
              MissingAt(ls, i, rs, j + 1, missing, samples, maxSamples)
  {
    BehindNext(ls, i, rs, j);
    SelectStep(ls, i, ValueSet(rs), false);
    if j == |rs| || ValueLess(ls[i].value, rs[j].value) {
      NoMatch(ls, i, rs, j);
      TakeSnoc(Select(ls[..i], ValueSet(rs), false), ls[i], maxSamples);
    } else if ls[i].value != rs[j].value {
      ValueTotal(ls[i].value, rs[j].value);
    }
  }

  lemma TakeSnoc(s: seq<Record>, r: Record, maxSamples: nat)
    ensures Take(Rows(s + [r]), maxSamples)
            == if |Take(Rows(s), maxSamples)| < maxSamples then Take(Rows(s), maxSamples) + [r.row]
              else Take(Rows(s), maxSamples)
  {
    assert Rows(s + [r]) == Rows(s) + [r.row];
  }

  /** One comparison of the current keys: which side moves on, and what was counted. */
  method CompareMissing(l: Record, t: Option<Record>, ghost ls: seq<Record>, ghost i: nat, ghost rs: seq<Record>,
                        ghost j: nat,
                        missing: nat, samples: seq<nat>, maxSamples: nat)
    returns (takeLeft: bool, takeRight: bool, counted: nat, sampled: seq<nat>, ghost nextLeft: nat,
             ghost nextRight: nat)
    requires MissingAt(ls, i, rs, j, missing, samples, maxSamples) && i < |ls| && l == ls[i]
    requires t == if j < |rs| then Some(rs[j]) else None
    ensures (takeLeft || takeRight) && (takeRight ==> j < |rs|)
    ensures nextLeft == (if takeLeft then i + 1 else i) && nextRight == (if takeRight then j + 1 else j)
    ensures MissingAt(ls, nextLeft, rs, nextRight, counted, sampled, maxSamples)
  {
    MissingStep(ls, i, rs, j, missing, samples, maxSamples);
    if t.None? || ValueLess(l.value, t.value.value) {
      return true, false, missing + 1, if |samples| < maxSamples then samples + [l.row] else samples, i + 1, j;
    }
    if l.value == t.value.value {
      return true, true, missing, samples, i + 1, j + 1;
    }
    return false, true, missing, samples, i, j + 1;
  }

  lemma MissingBegin(ls: seq<Record>, rs: seq<Record>, maxSamples: nat)
    requires Increasing(ls) && Increasing(rs)
    ensures MissingAt(ls, 0, rs, 0, 0, [], maxSamples)
  {
  }

  lemma MissingEnd(ls: seq<Record>, i: nat, rs: seq<Record>, j: nat, missing: nat, samples: seq<nat>, maxSamples: nat)
    requires MissingAt(ls, i, rs, j, missing, samples, maxSamples) && i == |ls|
    ensures missing == |Select(ls, ValueSet(rs), false)| &&
            samples == Take(Rows(Select(ls, ValueSet(rs), false)), maxSamples)
  {
    assert ls[..i] == ls;
  }

  /** One round of the merge: compare, count, move on. */
  method MissingRound(left: UniqueMerge, right: UniqueMerge, ghost i: nat, ghost j: nat, l: Option<Record>,
                      t: Option<Record>,
                      leftCount: nat, rightCount: nat, missing: nat, samples: seq<nat>, maxSamples: nat)
    returns (r: Result<(Option<Record>, Option<Record>)>, leftCounted: nat, rightCounted: nat,
             counted: nat, sampled: seq<nat>, ghost nextLeft: nat, ghost nextRight: nat)
    requires left.Valid() && right.Valid() && left != right && left.source != right.source && l.Some?
    requires At(left.keys, i, l, left.taken, leftCount) && At(right.keys, j, t, right.taken, rightCount)
    requires MissingAt(left.keys, i, right.keys, j, missing, samples, maxSamples)
    modifies left, left.source, right, right.source
    ensures r.Success? ==> left.Valid() && right.Valid()
    ensures r.Success? ==> At(left.keys, nextLeft, r.value.0, left.taken, leftCounted)
    ensures r.Success? ==> At(right.keys, nextRight, r.value.1, right.taken, rightCounted)
    ensures MissingAt(left.keys, nextLeft, right.keys, nextRight, counted, sampled, maxSamples)
    ensures i + j < nextLeft + nextRight
  {
    var takeLeft, takeRight;
    takeLeft, takeRight, counted, sampled, nextLeft, nextRight :=
      CompareMissing(l.value, t, left.keys, i, right.keys, j, missing, samples, maxSamples);
    leftCounted, rightCounted := leftCount, rightCount;
    var cancelled: bool := *;
    if cancelled {
      r := Failure(Limit);
      return;
    }
    r, leftCounted, rightCounted :=
      AdvanceSides(left, right, i, j, l, t, leftCount, rightCount, takeLeft, takeRight, nextLeft, nextRight);
  }

  /** `run::anti_join`. */
  method AntiJoin(left: UniqueMerge, right: UniqueMerge, maxSamples: nat) returns (r: Result<AntiJoinSummary>)
    requires left.Valid() && right.Valid() && left != right && left.source != right.source
    requires Increasing(left.keys) && Increasing(right.keys) && left.taken == right.taken == 0
    modifies left, left.source, right, right.source
    ensures r.Success? ==>
              var ls, rs := left.keys, right.keys;
              && r.value.leftDistinct == |ls| && r.value.rightDistinct == |rs|
              && r.value.missing == |Select(ls, ValueSet(rs), false)|
              && r.value.samples == Take(Rows(Select(ls, ValueSet(rs), false)), maxSamples)
  {
    ghost var ls, rs := left.keys, right.keys;
    var granted := Reserve();
    if !granted {
      return Failure(Limit);
    }
    var heads, leftDistinct, rightDistinct := StartSides(left, right);
    if heads.Failure? {
      return Failure(heads.error);
    }
    var missing, samples := 0, [];
    MissingBegin(ls, rs, maxSamples);
    ghost var i, j := 0, 0;
    while heads.value.0.Some?
      invariant heads.Success? && left.Valid() && right.Valid()
      invariant At(ls, i, heads.value.0, left.taken, leftDistinct) &&
                At(rs, j, heads.value.1, right.taken, rightDistinct)
      invariant MissingAt(ls, i, rs, j, missing, samples, maxSamples)
      decreases |ls| - i + |rs| - j
    {
      heads, leftDistinct, rightDistinct, missing, samples, i, j :=
        MissingRound(left, right, i, j, heads.value.0, heads.value.1, leftDistinct, rightDistinct, missing, samples,
                     maxSamples);
      if heads.Failure? {
        return Failure(heads.error);
      }
    }
    MissingEnd(ls, i, rs, j, missing, samples, maxSamples);
    var total := ReadRest(right, j, heads.value.1, rightDistinct);
    if total.Failure? {
      return Failure(total.error);
    }
    r := Success(AntiJoinSummary(leftDistinct, total.value, missing, samples));
  }

  /** What an intersection knows once it has read left keys below `i` and right keys below `j`. */
  ghost predicate OverlapAt(ls: seq<Record>, i: nat, rs: seq<Record>, j: nat, overlap: nat, samples: seq<seq<byte>>,
                            maxSamples: nat) {
    && i <= |ls| && j <= |rs| && Increasing(ls) && Increasing(rs) && Behind(ls, i, rs, j)
    && overlap == |Select(ls[..i], ValueSet(rs), true)|
    && Digests(Select(ls[..i], ValueSet(rs), true), samples, maxSamples)
  }

  lemma OverlapStep(ls: seq<Record>, i: nat, rs: seq<Record>, j: nat, overlap: nat, samples: seq<seq<byte>>,
                    maxSamples: nat)
    requires OverlapAt(ls, i, rs, j, overlap, samples, maxSamples) && i < |ls|
    ensures j == |rs| || ValueLess(ls[i].value, rs[j].value) ==>
            OverlapAt(ls, i + 1, rs, j, overlap, samples, maxSamples)
    ensures j < |rs| && ls[i].value != rs[j].value && !ValueLess(ls[i].value, rs[j].value) ==>
              OverlapAt(ls, i, rs, j + 1, overlap, samples, maxSamples)
    ensures j < |rs| && ls[i].value == rs[j].value ==>
              && (|samples| >= maxSamples ==> OverlapAt(ls, i + 1, rs, j + 1, overlap + 1, samples, maxSamples))
              && (|samples| < maxSamples && ls[i].value.ByteString? && |ls[i].value.bytes| == 32 ==>
                    OverlapAt(ls, i + 1, rs, j + 1, overlap + 1, samples + [ls[i].value.bytes], maxSamples))
  {
    BehindNext(ls, i, rs, j);
    SelectStep(ls, i, ValueSet(rs), true);
    if j == |rs| || ValueLess(ls[i].value, rs[j].value) {
      NoMatch(ls, i, rs, j);
    } else if ls[i].value == rs[j].value {
      assert rs[j] in rs;
    } else {
      ValueTotal(ls[i].value, rs[j].value);
    }
  }

  /** Left keys that remain once the right side is exhausted match nothing. */
  lemma {:induction false} OverlapComplete(ls: seq<Record>, i: nat, rs: seq<Record>, overlap: nat,
                                           samples: seq<seq<byte>>, maxSamples: nat)
    requires OverlapAt(ls, i, rs, |rs|, overlap, samples, maxSamples)
    ensures OverlapAt(ls, |ls|, rs, |rs|, overlap, samples, maxSamples)
    decreases |ls| - i
  {
    if i < |ls| {
      OverlapStep(ls, i, rs, |rs|, overlap, samples, maxSamples);
      OverlapComplete(ls, i + 1, rs, overlap, samples, maxSamples);
    }
  }

  /** One comparison of the current keys; `digest` fails when a key to be sampled is not a digest. */
  method CompareOverlap(l: Record, t: Record, ghost ls: seq<Record>, ghost i: nat, ghost rs: seq<Record>, ghost j: nat,
                        overlap: nat, samples: seq<seq<byte>>, maxSamples: nat)
    returns (takeLeft: bool, takeRight: bool, digest: bool, counted: nat, sampled: seq<seq<byte>>, ghost nextLeft: nat,
             ghost nextRight: nat)
    requires OverlapAt(ls, i, rs, j, overlap, samples, maxSamples)
    requires i < |ls| && j < |rs| && l == ls[i] && t == rs[j]
    ensures takeLeft || takeRight
    ensures nextLeft == (if takeLeft then i + 1 else i) && nextRight == (if takeRight then j + 1 else j)
    ensures digest ==> OverlapAt(ls, nextLeft, rs, nextRight, counted, sampled, maxSamples)
    ensures !digest ==> l.value == t.value && |samples| < maxSamples && !(l.value.ByteString? && |l.value.bytes| == 32)
  {
    OverlapStep(ls, i, rs, j, overlap, samples, maxSamples);
    if l.value != t.value {
      if ValueLess(l.value, t.value) {
        return true, false, true, overlap, samples, i + 1, j;
      }
      return false, true, true, overlap, samples, i, j + 1;
    }
    if |samples| >= maxSamples {
      return true, true, true, overlap + 1, samples, i + 1, j + 1;
    }
    if !l.value.ByteString? || |l.value.bytes| != 32 {
      return true, true, false, overlap, samples, i + 1, j + 1;
    }
    return true, true, true, overlap + 1, samples + [l.value.bytes], i + 1, j + 1;
  }

  lemma OverlapBegin(ls: seq<Record>, rs: seq<Record>, maxSamples: nat)
    requires Increasing(ls) && Increasing(rs)
    ensures OverlapAt(ls, 0, rs, 0, 0, [], maxSamples)
  {
  }

  lemma OverlapEnd(ls: seq<Record>, i: nat, rs: seq<Record>, j: nat, overlap: nat, samples: seq<seq<byte>>,
                   maxSamples: nat)
    requires OverlapAt(ls, i, rs, j, overlap, samples, maxSamples) && (i == |ls| || j == |rs|)
    ensures overlap == |Select(ls, ValueSet(rs), true)| && Digests(Select(ls, ValueSet(rs), true), samples, maxSamples)
  {
    if i < |ls| {
      OverlapComplete(ls, i, rs, overlap, samples, maxSamples);
    }
    assert ls[..|ls|] == ls;
  }

  method OverlapRound(left: UniqueMerge, right: UniqueMerge, ghost i: nat, ghost j: nat, l: Option<Record>,
                      t: Option<Record>,
                      leftCount: nat, rightCount: nat, overlap: nat, samples: seq<seq<byte>>, maxSamples: nat)
    returns (r: Result<(Option<Record>, Option<Record>)>, leftCounted: nat, rightCounted: nat,
             counted: nat, sampled: seq<seq<byte>>, ghost nextLeft: nat, ghost nextRight: nat)
    requires left.Valid() && right.Valid() && left != right && left.source != right.source && l.Some? && t.Some?
    requires At(left.keys, i, l, left.taken, leftCount) && At(right.keys, j, t, right.taken, rightCount)
    requires OverlapAt(left.keys, i, right.keys, j, overlap, samples, maxSamples)
    modifies left, left.source, right, right.source
    ensures r.Success? ==> left.Valid() && right.Valid()
    ensures r.Success? ==> At(left.keys, nextLeft, r.value.0, left.taken, leftCounted)
    ensures r.Success? ==> At(right.keys, nextRight, r.value.1, right.taken, rightCounted)
    ensures r.Success? ==> OverlapAt(left.keys, nextLeft, right.keys, nextRight, counted, sampled, maxSamples)
    ensures i + j < nextLeft + nextRight
  {
    var takeLeft, takeRight, digest;
    takeLeft, takeRight, digest, counted, sampled, nextLeft, nextRight :=
      CompareOverlap(l.value, t.value, left.keys, i, right.keys, j, overlap, samples, maxSamples);
    leftCounted, rightCounted := leftCount, rightCount;
    var cancelled: bool := *;
    if cancelled || !digest {
      r := Failure(if cancelled then Limit else Corrupt);
      return;
    }
    r, leftCounted, rightCounted :=
      AdvanceSides(left, right, i, j, l, t, leftCount, rightCount, takeLeft, takeRight, nextLeft, nextRight);
  }

  /** `run::intersect`. A sampled key must be a 32-byte digest. */
  method Intersect(left: UniqueMerge, right: UniqueMerge, maxSamples: nat) returns (r: Result<IntersectionSummary>)
    requires left.Valid() && right.Valid() && left != right && left.source != right.source
    requires Increasing(left.keys) && Increasing(right.keys) && left.taken == right.taken == 0
    modifies left, left.source, right, right.source
    ensures r.Success? ==>
              var ls, rs := left.keys, right.keys;
              && r.value.leftDistinct == |ls| && r.value.rightDistinct == |rs|
              && r.value.overlap == |Select(ls, ValueSet(rs), true)|
              && Digests(Select(ls, ValueSet(rs), true), r.value.samples, maxSamples)
  {
    ghost var ls, rs := left.keys, right.keys;
    var granted := Reserve();
    if !granted {
      return Failure(Limit);
    }
    var heads, leftDistinct, rightDistinct := StartSides(left, right);
    if heads.Failure? {
      return Failure(heads.error);
    }
    var overlap, samples := 0, [];
    OverlapBegin(ls, rs, maxSamples);
    ghost var i, j := 0, 0;
    while heads.value.0.Some? && heads.value.1.Some?
      invariant heads.Success? && left.Valid() && right.Valid()
      invariant At(ls, i, heads.value.0, left.taken, leftDistinct) &&
                At(rs, j, heads.value.1, right.taken, rightDistinct)
      invariant OverlapAt(ls, i, rs, j, overlap, samples, maxSamples)
      decreases |ls| - i + |rs| - j
    {
      heads, leftDistinct, rightDistinct, overlap, samples, i, j :=
        OverlapRound(left, right, i, j, heads.value.0, heads.value.1, leftDistinct, rightDistinct, overlap, samples,
                     maxSamples);
      if heads.Failure? {
        return Failure(heads.error);
      }
    }
    OverlapEnd(ls, i, rs, j, overlap, samples, maxSamples);
    var totals := ReadBoth(left, right, i, j, heads.value.0, heads.value.1, leftDistinct, rightDistinct);
    if totals.Failure? {
      return Failure(totals.error);
    }
    r := Success(IntersectionSummary(totals.value.0, totals.value.1, overlap, samples));
  }

  /** Open both sides; the left keys split into those the right side has and those it lacks. */
  method OpenSides(leftRuns: seq<RunMeta>, ghost ls: seq<seq<Record>>, leftHash: HashFunction,
                   rightRuns: seq<RunMeta>, ghost rs: seq<seq<Record>>, rightHash: HashFunction)
    returns (r: Result<(UniqueMerge, UniqueMerge)>)
    requires AllStore(leftRuns, ls, leftHash) && AllStore(rightRuns, rs, rightHash)
    ensures r.Success? ==>
              var (left, right) := r.value;
              && fresh(left) && fresh(left.source) && fresh(right) && fresh(right.source)
              && left != right && left.source != right.source && left.Valid() && right.Valid() &&
                left.taken == right.taken == 0
              && left.keys == LeadersInOrder(AllOf(ls)) && Increasing(left.keys) && |left.keys| == |Values(AllOf(ls))|
              && Increasing(right.keys) && ValueSet(right.keys) == Values(AllOf(rs)) &&
                |right.keys| == |Values(AllOf(rs))|
              && Splits(left.keys, AllOf(ls), AllOf(rs))
  {
    var left := OpenUnique(leftRuns, ls, leftHash);
    if left.Failure? {
      return Failure(left.error);
    }
    var right := OpenUnique(rightRuns, rs, rightHash);
    if right.Failure? {
      return Failure(right.error);
    }
    SelectCounts(left.value.keys, Values(AllOf(rs)));
    r := Success((left.value, right.value));
  }

  ghost predicate Splits(keys: seq<Record>, left: multiset<Record>, right: multiset<Record>) {
    && |Select(keys, Values(right), true)| == |Values(left) * Values(right)|
    && |Select(keys, Values(right), false)| == |Values(left) - Values(right)|
  }

  method AntiJoinRuns(leftRuns: seq<RunMeta>, ghost ls: seq<seq<Record>>, leftHash: HashFunction,
                      rightRuns: seq<RunMeta>, ghost rs: seq<seq<Record>>, rightHash: HashFunction, maxSamples: nat)
    returns (r: Result<AntiJoinSummary>)
    requires AllStore(leftRuns, ls, leftHash) && AllStore(rightRuns, rs, rightHash)
    ensures r.Success? ==> IsAntiJoin(r.value, AllOf(ls), AllOf(rs), maxSamples)
  {
    var sides := OpenSides(leftRuns, ls, leftHash, rightRuns, rs, rightHash);
    if sides.Failure? {
      return Failure(sides.error);
    }
    r := AntiJoin(sides.value.0, sides.value.1, maxSamples);
  }

  method IntersectRuns(leftRuns: seq<RunMeta>, ghost ls: seq<seq<Record>>, leftHash: HashFunction,
                       rightRuns: seq<RunMeta>, ghost rs: seq<seq<Record>>, rightHash: HashFunction, maxSamples: nat)
    returns (r: Result<IntersectionSummary>)
    requires AllStore(leftRuns, ls, leftHash) && AllStore(rightRuns, rs, rightHash)
    ensures r.Success? ==> IsIntersection(r.value, AllOf(ls), AllOf(rs), maxSamples)
  {
    var sides := OpenSides(leftRuns, ls, leftHash, rightRuns, rs, rightHash);
    if sides.Failure? {
      return Failure(sides.error);
    }
    r := Intersect(sides.value.0, sides.value.1, maxSamples);
  }

  /** `anti_join_exact_states`; the right side was sealed when the reference was scanned. */
  method AntiJoinExactStates(left: ExactState, right: ExactState, maxSamples: nat) returns (r: Result<AntiJoinSummary>)
    requires left != right && left.Valid() && right.Valid() && AllOf(right.lists) == right.contents
    modifies left
    ensures r.Success? ==> IsAntiJoin(r.value, old(left.contents), right.contents, maxSamples)
  {
    var sealed := left.Seal();
    if sealed.Failure? {
      return Failure(sealed.error);
    }
    r := AntiJoinRuns(left.runs, left.lists, left.hash, right.runs, right.lists, right.hash, maxSamples);
  }

  /** `intersect_exact_states`. */
  method IntersectExactStates(left: ExactState, right: ExactState, maxSamples: nat)
    returns (r: Result<IntersectionSummary>)
    requires left != right && left.Valid() && right.Valid()
    modifies left, right
    ensures r.Success? ==> IsIntersection(r.value, old(left.contents), old(right.contents), maxSamples)
  {
    var sealed := left.Seal();
    if sealed.Failure? {
      return Failure(sealed.error);
    }
    sealed := right.Seal();
    if sealed.Failure? {
      return Failure(sealed.error);
    }
    r := IntersectRuns(left.runs, left.lists, left.hash, right.runs, right.lists, right.hash, maxSamples);
  }

  lemma LeadersIncrease(m: multiset<Record>)
    ensures Increasing(LeadersInOrder(m)) && ValueSet(LeadersInOrder(m)) == Values(m)
  {
    var s := InOrder(m);
    assert multiset(s) == m;
    UniquesAreLeaders(s);
  }

  /** The samples of an anti-join are all the missing keys, or as many as were asked for. */
  lemma MissingSampleCount(r: AntiJoinSummary, left: multiset<Record>, right: multiset<Record>, maxSamples: nat)
    requires IsAntiJoin(r, left, right, maxSamples)
    ensures |r.samples| == if r.missing <= maxSamples then r.missing else maxSamples
  {
    LeadersIncrease(left);
    var missing := Select(LeadersInOrder(left), Values(right), false);
    SelectCounts(LeadersInOrder(left), Values(right));
    assert |Rows(missing)| == r.missing;
  }

  // ----- the joins in plain terms --------------------------------------------------------------------

  lemma {:induction false} SelectMember(s: seq<Record>, values: set<OwnedValue>, present: bool, r: Record)
    ensures r in Select(s, values, present) <==> r in s && ((r.value in values) == present)
    decreases |s|
  {
    if s != [] {
      var n := |s| - 1;
      SelectMember(s[..n], values, present, r);
      assert s == s[..n] + [s[n]];
    }
  }

  lemma {:induction false} SelectIncreasing(s: seq<Record>, values: set<OwnedValue>, present: bool)
    requires Increasing(s)
    ensures Increasing(Select(s, values, present))
    decreases |s|
  {
    if s != [] {
      var n := |s| - 1;
      SelectIncreasing(s[..n], values, present);
      forall r | r in Select(s[..n], values, present) ensures ValueLess(r.value, s[n].value) {
        SelectMember(s[..n], values, present, r);
        var i :| 0 <= i < n && s[i] == r;
        assert ValueLess(s[i].value, s[n].value);
      }
    }
  }

  lemma LeadersMember(m: multiset<Record>, r: Record)
    ensures r in LeadersInOrder(m) <==> r in m && forall q | q in m && q.value == r.value :: r.row <= q.row
  {
    assert r in multiset(LeadersInOrder(m)) <==> r in Leaders(m);
  }

  /** The records behind the missing keys of a join, and those behind the shared ones. */
  ghost function KeysMissing(left: multiset<Record>, right: multiset<Record>): seq<Record> {
    Select(LeadersInOrder(left), Values(right), false)
  }

  ghost function KeysShared(left: multiset<Record>, right: multiset<Record>): seq<Record> {
    Select(LeadersInOrder(left), Values(right), true)
  }

  /** The lowest-row record of every left value that no right record carries, or that some right record does. */
  lemma JoinMembers(left: multiset<Record>, right: multiset<Record>, r: Record)
    ensures r in KeysMissing(left, right) <==>
            && r in left && (forall q | q in left && q.value == r.value :: r.row <= q.row)
            && !exists q :: q in right && q.value == r.value
    ensures r in KeysShared(left, right) <==>
            && r in left && (forall q | q in left && q.value == r.value :: r.row <= q.row)
            && exists q :: q in right && q.value == r.value
  {
    LeadersMember(left, r);
    SelectMember(LeadersInOrder(left), Values(right), false, r);
    SelectMember(LeadersInOrder(left), Values(right), true, r);
  }

  /** They come by value, no value twice. */
  lemma JoinOrder(left: multiset<Record>, right: multiset<Record>, keys: seq<Record>, i: nat, j: nat)
    requires (keys == KeysMissing(left, right) || keys == KeysShared(left, right)) && i < j < |keys|
    ensures var (a, b) := (keys[i].value, keys[j].value);
            && a != b
            && (b.Signed? ==> a.Signed? && a.i < b.i)
            && (b.Unsigned? ==> a.Signed? || (a.Unsigned? && a.u < b.u))
            && (b.FloatBits? ==> a.Signed? || a.Unsigned? || (a.FloatBits? && a.bits < b.bits))
            && (a.ByteString? ==> b.ByteString?)
            && (a.ByteString? ==>
                || a.bytes <= b.bytes
                || exists p :: 0 <= p < |a.bytes| && p < |b.bytes| && a.bytes[..p] == b.bytes[..p] &&
                                 a.bytes[p] < b.bytes[p])
  {
    LeadersIncrease(left);
    SelectIncreasing(LeadersInOrder(left), Values(right), false);
    SelectIncreasing(LeadersInOrder(left), Values(right), true);
    assert ValueLess(keys[i].value, keys[j].value);
    ValueMeans(keys[i].value, keys[j].value);
  }

  /** An anti-join counts the distinct values of both sides and the left values missing, and names their first rows. */
  lemma AntiJoinMeans(r: AntiJoinSummary, left: multiset<Record>, right: multiset<Record>, maxSamples: nat)
    requires IsAntiJoin(r, left, right, maxSamples)
    ensures r.leftDistinct == |(set q | q in left :: q.value)| && r.rightDistinct == |(set q | q in right :: q.value)|
    ensures r.missing == |KeysMissing(left, right)|
    ensures |r.samples| == (if r.missing <= maxSamples then r.missing else maxSamples)
    ensures forall i | 0 <= i < |r.samples| :: r.samples[i] == KeysMissing(left, right)[i].row
  {
    LeadersIncrease(left);
    SelectCounts(LeadersInOrder(left), Values(right));
  }

  /** An intersection does so for the shared values, and its samples are the first of them. */
  lemma IntersectionMeans(r: IntersectionSummary, left: multiset<Record>, right: multiset<Record>, maxSamples: nat)
    requires IsIntersection(r, left, right, maxSamples)
    ensures r.leftDistinct == |(set q | q in left :: q.value)| && r.rightDistinct == |(set q | q in right :: q.value)|
    ensures r.overlap == |KeysShared(left, right)|
    ensures |r.samples| == (if r.overlap <= maxSamples then r.overlap else maxSamples)
    ensures forall i | 0 <= i < |r.samples| :: ByteString(r.samples[i]) == KeysShared(left, right)[i].value
  {
    LeadersIncrease(left);
    SelectCounts(LeadersInOrder(left), Values(right));
  }
}
