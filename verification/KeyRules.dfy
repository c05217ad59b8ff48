/**
 Reference rules and composite uniqueness: what they add to the violations, in terms of the key
 tuples themselves rather than of their encodings.
 */
module KeyRules {
  import opened Arithmetic
  import opened Bytes
  import opened Records
  import opened Sequences
  import opened Sets
  import opened Sorting
  import opened Merge
  import opened Summary
  import opened ExactState
  import opened SetOperations
  import opened Findings
  import opened RowFindings
  import opened Keys
  import Canonical

  type Row = Canonical.Row

  /** A reference side (positional, never null) or a composite rule (labelled by column, nulls marked). */
  datatype KeyRule = KeyRule(columns: seq<nat>, marked: bool, rejectNulls: bool, name: string, column: string)

  function Labels(rule: KeyRule): (r: seq<nat>)
    ensures |r| == |rule.columns|
  {
    if rule.marked then rule.columns else Ordinals(0, |rule.columns|)
  }

  ghost predicate Fits(rule: KeyRule, rows: seq<Row>) {
    forall r | r in rows :: Canonical.InRange(rule.columns, |r|) && Sized(r)
  }

  function Tuple(rule: KeyRule, row: Row): seq<Canonical.Value>
    requires Canonical.InRange(rule.columns, |row|)
  {
    Canonical.Pick(row, rule.columns)
  }

  /** The row has a key the rule looks at. */
  ghost predicate Participates(rule: KeyRule, row: Row)
    requires Canonical.InRange(rule.columns, |row|)
  {
    && AllKeyable(Tuple(rule, row), rule.marked)
    && (rule.marked && rule.rejectNulls ==> Canonical.Null !in Tuple(rule, row))
  }

  // ----- the specification, on tuples ----------------------------------------------------------------

  ghost function Tuples(rule: KeyRule, rows: seq<Row>): set<seq<Canonical.Value>>
    requires Fits(rule, rows)
  {
    set r | r in rows && Participates(rule, r) :: Tuple(rule, r)
  }

  /** Rows whose key was already carried by an earlier row. */
  ghost function Repeats(rule: KeyRule, rows: seq<Row>): nat
    requires Fits(rule, rows)
  {
    if rows == [] then 0
    else
      var init, last := rows[..|rows| - 1], rows[|rows| - 1];
      Repeats(rule, init) + if Participates(rule, last) && Tuple(rule, last) in Tuples(rule, init) then 1 else 0
  }

  /** Rows a rejecting rule reports for holding a null. */
  ghost function NullRows(rule: KeyRule, rows: seq<Row>): nat
    requires Fits(rule, rows)
  {
    if rows == [] then 0
    else
      var init, last := rows[..|rows| - 1], rows[|rows| - 1];
      NullRows(rule, init) + if rule.rejectNulls && Canonical.Null in Tuple(rule, last) then 1 else 0
  }

  // ----- the specification, cell by cell ---------------------------------------------------------------

  /** Which cells keep a row out: a null, where the rule does not mark it or rejects it, and nested values. */
  lemma ParticipatesMeans(rule: KeyRule, row: Row)
    requires Canonical.InRange(rule.columns, |row|)
    ensures Participates(rule, row) <==>
            forall i | 0 <= i < |rule.columns| ::
              match row[rule.columns[i]]
              case Null => rule.marked && !rule.rejectNulls
              case Scalar(p, raw) => |raw| == Canonical.Width(p)
              case Boolean(_) => true
              case Text(_, _) => true
              case _ => false
  {
    var t := Tuple(rule, row);
    assert forall i | 0 <= i < |t| :: t[i] == row[rule.columns[i]] && t[i] in t;
    assert forall v | v in t :: exists i :: 0 <= i < |t| && t[i] == v;
  }

  lemma SameTuple(rule: KeyRule, a: Row, b: Row)
    requires Canonical.InRange(rule.columns, |a|) && Canonical.InRange(rule.columns, |b|)
    ensures Tuple(rule, a) == Tuple(rule, b) <==>
            forall i | 0 <= i < |rule.columns| :: a[rule.columns[i]] == b[rule.columns[i]]
  {
    if forall i | 0 <= i < |rule.columns| :: a[rule.columns[i]] == b[rule.columns[i]] {
      assert Tuple(rule, a) == Tuple(rule, b);
    } else {
      var i :| 0 <= i < |rule.columns| && a[rule.columns[i]] != b[rule.columns[i]];
      assert Tuple(rule, a)[i] != Tuple(rule, b)[i];
    }
  }

  ghost predicate NullAt(rule: KeyRule, rows: seq<Row>, n: nat)
    requires Fits(rule, rows)
  {
    n < |rows| && Canonical.Null in Tuple(rule, rows[n])
  }

  ghost function NullCounts(rule: KeyRule, rows: seq<Row>): (r: seq<nat>)
    requires Fits(rule, rows)
    ensures |r| == |rows| + 1 && forall k | 0 <= k < |r| :: r[k] == NullRows(rule, rows[..k])
  {
    seq(|rows| + 1, k requires 0 <= k <= |rows| && Fits(rule, rows) => NullRows(rule, rows[..k]))
  }

  lemma NullStep(rule: KeyRule, rows: seq<Row>, k: nat)
    requires Fits(rule, rows) && k < |rows|
    ensures NullRows(rule, rows[..0]) == 0
    ensures NullRows(rule, rows[..k + 1]) ==
            NullRows(rule, rows[..k]) + if rule.rejectNulls && NullAt(rule, rows, k) then 1 else 0
  {
    SplitLast(rows, k);
  }

  /** A rejecting rule reports as many rows as hold a null in a key column. */
  lemma NullRowsMeans(rule: KeyRule, rows: seq<Row>)
    requires Fits(rule, rows)
    ensures NullRows(rule, rows) == |(set n: nat | n < |rows| && rule.rejectNulls && NullAt(rule, rows, n))|
  {
    var marks := seq(|rows|, k requires 0 <= k < |rows| && Fits(rule, rows) =>
      rule.rejectNulls && NullAt(rule, rows, k));
    forall k: nat | k < |rows| ensures NullCounts(rule, rows)[k + 1] == NullCounts(rule, rows)[k] + if marks[k] then 1
        else 0 {
      NullStep(rule, rows, k);
    }
    assert rows[..|rows|] == rows;
    CountMarked(marks, NullCounts(rule, rows));
    assert (set n: nat | n < |marks| && marks[n]) ==
           set n: nat | n < |rows| && rule.rejectNulls && NullAt(rule, rows, n);
  }

  lemma NullAtMeans(rule: KeyRule, rows: seq<Row>, n: nat)
    requires Fits(rule, rows)
    ensures NullAt(rule, rows, n) <==>
            n < |rows| && exists i :: 0 <= i < |rule.columns| && rows[n][rule.columns[i]].Null?
  {
    if n < |rows| {
      NullInTuple(rule, rows[n]);
    }
  }

  /** The tuples of a dataset are the key cells of its participating rows. */
  lemma TuplesMean(rule: KeyRule, rows: seq<Row>, t: seq<Canonical.Value>)
    requires Fits(rule, rows)
    ensures t in Tuples(rule, rows) <==>
            |t| == |rule.columns| &&
              exists n :: 0 <= n < |rows| && Participates(rule, rows[n]) &&
                            (forall i | 0 <= i < |t| :: t[i] == rows[n][rule.columns[i]])
  {
    if n :| 0 <= n < |rows| && Participates(rule, rows[n]) && |t| == |rule.columns| &&
            (forall i | 0 <= i < |t| :: t[i] == rows[n][rule.columns[i]]) {
      assert t == Tuple(rule, rows[n]) && rows[n] in rows;
    }
    if t in Tuples(rule, rows) {
      var r :| r in rows && Participates(rule, r) && Tuple(rule, r) == t;
      var n :| 0 <= n < |rows| && rows[n] == r;
    }
  }

  lemma NullInTuple(rule: KeyRule, row: Row)
    requires Canonical.InRange(rule.columns, |row|)
    ensures Canonical.Null in Tuple(rule, row) <==>
            exists i :: 0 <= i < |rule.columns| && row[rule.columns[i]].Null?
  {
    var t := Tuple(rule, row);
    assert forall i | 0 <= i < |t| :: t[i] == row[rule.columns[i]];
  }

  /** Row n repeats the key of an earlier row. */
  ghost predicate RepeatsAt(rule: KeyRule, rows: seq<Row>, n: nat)
    requires Fits(rule, rows) && n < |rows|
  {
    Participates(rule, rows[n]) && Tuple(rule, rows[n]) in Tuples(rule, rows[..n])
  }

  ghost function RepeatCounts(rule: KeyRule, rows: seq<Row>): (r: seq<nat>)
    requires Fits(rule, rows)
    ensures |r| == |rows| + 1 && forall k | 0 <= k < |r| :: r[k] == Repeats(rule, rows[..k])
  {
    seq(|rows| + 1, k requires 0 <= k <= |rows| && Fits(rule, rows) => Repeats(rule, rows[..k]))
  }

  lemma RepeatsStep(rule: KeyRule, rows: seq<Row>, k: nat)
    requires Fits(rule, rows) && k < |rows|
    ensures Repeats(rule, rows[..k + 1]) == Repeats(rule, rows[..k]) + if RepeatsAt(rule, rows, k) then 1 else 0
  {
    SplitLast(rows, k);
  }

  /** There are as many repeats as rows that repeat the key of an earlier one. */
  lemma RepeatsMeans(rule: KeyRule, rows: seq<Row>)
    requires Fits(rule, rows)
    ensures Repeats(rule, rows) == |(set n: nat | n < |rows| && RepeatsAt(rule, rows, n))|
  {
    var marks := seq(|rows|, k requires 0 <= k < |rows| && Fits(rule, rows) => RepeatsAt(rule, rows, k));
    forall k: nat | k < |rows|
      ensures RepeatCounts(rule, rows)[k + 1] == RepeatCounts(rule, rows)[k] + if marks[k] then 1
        else 0 {
      RepeatsStep(rule, rows, k);
    }
    assert rows[..0] == [] && rows[..|rows|] == rows;
    CountMarked(marks, RepeatCounts(rule, rows));
    assert (set n: nat | n < |marks| && marks[n]) == set n: nat | n < |rows| && RepeatsAt(rule, rows, n);
  }

  /** Such a row participates, and agrees with an earlier participating row on all key columns. */
  lemma RepeatMeans(rule: KeyRule, rows: seq<Row>, n: nat)
    requires Fits(rule, rows) && n < |rows|
    ensures RepeatsAt(rule, rows, n) <==>
            && Participates(rule, rows[n])
            && exists m :: 0 <= m < n && Participates(rule, rows[m]) &&
                             forall i | 0 <= i < |rule.columns| ::
                               rows[m][rule.columns[i]] == rows[n][rule.columns[i]]
  {
    forall m | 0 <= m < n
      ensures Tuple(rule, rows[m]) == Tuple(rule, rows[n]) <==>
              forall i | 0 <= i < |rule.columns| :: rows[m][rule.columns[i]] == rows[n][rule.columns[i]]
    {
      SameTuple(rule, rows[m], rows[n]);
    }
    if Tuple(rule, rows[n]) in Tuples(rule, rows[..n]) {
      var r :| r in rows[..n] && Participates(rule, r) && Tuple(rule, r) == Tuple(rule, rows[n]);
      var m :| 0 <= m < n && rows[m] == r;
    }
    if m :| 0 <= m < n && Participates(rule, rows[m]) && Tuple(rule, rows[m]) == Tuple(rule, rows[n]) {
      assert rows[m] in rows[..n];
    }
  }

  // ----- the encoded keys ----------------------------------------------------------------------------

  ghost function KeyValue(rule: KeyRule, row: Row): OwnedValue
    requires Canonical.InRange(rule.columns, |row|) && Participates(rule, row)
  {
    ByteString(Key(Tuple(rule, row), Labels(rule), rule.marked))
  }

  /** What exact state collects: one record per participating row. */
  ghost function KeyRecords(rule: KeyRule, rows: seq<Row>): multiset<Record>
    requires Fits(rule, rows) && |rows| < U64
  {
    if rows == [] then multiset{}
    else
      var n := |rows| - 1;
      if Participates(rule, rows[n]) then KeyRecords(rule, rows[..n]) + multiset{Record(KeyValue(rule, rows[n]), n)}
      else KeyRecords(rule, rows[..n])
  }

  ghost function KeyValues(rule: KeyRule, rows: seq<Row>): set<OwnedValue>
    requires Fits(rule, rows)
  {
    set r | r in rows && Participates(rule, r) :: KeyValue(rule, r)
  }

  lemma {:induction false} ValuesOfRecords(rule: KeyRule, rows: seq<Row>)
    requires Fits(rule, rows) && |rows| < U64
    ensures Values(KeyRecords(rule, rows)) == KeyValues(rule, rows)
    decreases |rows|
  {
    if rows != [] {
      var n := |rows| - 1;
      var init, last := rows[..n], rows[n];
      ValuesOfRecords(rule, init);
      assert rows == init + [last];
      if Participates(rule, last) {
        ValuesOfInsert(KeyRecords(rule, init), Record(KeyValue(rule, last), n));
      }
      KeyValuesSnoc(rule, init, last);
    }
  }

  lemma KeyValuesSnoc(rule: KeyRule, init: seq<Row>, last: Row)
    requires Fits(rule, init + [last])
    ensures Fits(rule, init) && Canonical.InRange(rule.columns, |last|)
    ensures KeyValues(rule, init + [last]) == KeyValues(rule, init) + if Participates(rule,
            last) then {KeyValue(rule, last)} else {}
  {
    var rows := init + [last];
    assert forall r | r in init :: r in rows;
    assert last in rows;
    assert forall r | r in rows :: r in init || r == last;
  }

  lemma ValuesOfInsert(m: multiset<Record>, r: Record)
    ensures Values(m + multiset{r}) == Values(m) + {r.value}
  {
    forall v | v in Values(m) + {r.value} ensures v in Values(m + multiset{r}) {
      if v in Values(m) {
        var q :| q in m && q.value == v;
        assert q in m + multiset{r};
      } else {
        assert r in m + multiset{r};
      }
    }
  }

  /** Tuples a key can be made of, under given labels. */
  ghost predicate Encodable(t: seq<Canonical.Value>, labels: seq<nat>, marked: bool) {
    |t| == |labels| && AllKeyable(t, marked) && Sized(t)
  }

  ghost function EncodeTuple(labels: seq<nat>, marked: bool): seq<Canonical.Value> -> OwnedValue {
    t => if Encodable(t, labels, marked) then ByteString(Key(t, labels, marked)) else Signed(0)
  }

  lemma TuplesEncodable(rule: KeyRule, rows: seq<Row>)
    requires Fits(rule, rows)
    ensures forall t | t in Tuples(rule, rows) :: Encodable(t, Labels(rule), rule.marked)
    ensures KeyValues(rule, rows) == Image(Tuples(rule, rows), EncodeTuple(Labels(rule), rule.marked))
  {
    var f := EncodeTuple(Labels(rule), rule.marked);
    forall r | r in rows && Participates(rule, r)
      ensures Encodable(Tuple(rule, r), Labels(rule), rule.marked) && KeyValue(rule, r) == f(Tuple(rule, r))
    {
      PickedSized(rule, r);
    }
    forall v | v in Image(Tuples(rule, rows), f) ensures v in KeyValues(rule, rows) {
      var t :| t in Tuples(rule, rows) && f(t) == v;
      var r :| r in rows && Participates(rule, r) && Tuple(rule, r) == t;
      assert v == KeyValue(rule, r);
    }
    forall v | v in KeyValues(rule, rows) ensures v in Image(Tuples(rule, rows), f) {
      var r :| r in rows && Participates(rule, r) && KeyValue(rule, r) == v;
      assert Tuple(rule, r) in Tuples(rule, rows);
    }
  }

  lemma PickedSized(rule: KeyRule, r: Row)
    requires Canonical.InRange(rule.columns, |r|) && Sized(r)
    ensures Sized(Tuple(rule, r))
  {
  }

  lemma EncodeTupleInjective(labels: seq<nat>, marked: bool, ts: set<seq<Canonical.Value>>)
    requires forall t | t in ts :: Encodable(t, labels, marked)
    ensures forall t, u | t in ts && u in ts && EncodeTuple(labels, marked)(t) == EncodeTuple(labels, marked)(u) ::
            t == u
  {
    forall t, u | t in ts && u in ts && EncodeTuple(labels, marked)(t) == EncodeTuple(labels, marked)(u)
      ensures t == u
    {
      KeyInjective(t, u, labels, marked);
    }
  }

  /** Distinct encodings missing on one side are exactly the distinct tuples missing there. */
  lemma MissingTuples(a: KeyRule, left: seq<Row>, b: KeyRule, right: seq<Row>)
    requires Fits(a, left) && Fits(b, right) && Labels(a) == Labels(b) && a.marked == b.marked
    ensures |KeyValues(a, left) - KeyValues(b, right)| == |Tuples(a, left) - Tuples(b, right)|
    ensures |KeyValues(a, left)| == |Tuples(a, left)|
  {
    var f := EncodeTuple(Labels(a), a.marked);
    TuplesEncodable(a, left);
    TuplesEncodable(b, right);
    EncodeTupleInjective(Labels(a), a.marked, Tuples(a, left) + Tuples(b, right));
    ImageDifference(Tuples(a, left), Tuples(b, right), f);
    ImageSize(Tuples(a, left), f);
  }

  lemma TuplesSnoc(rule: KeyRule, rows: seq<Row>)
    requires Fits(rule, rows) && rows != []
    ensures var init, last := rows[..|rows| - 1], rows[|rows| - 1];
            Tuples(rule, rows) == Tuples(rule, init) + if Participates(rule, last) then {Tuple(rule, last)} else {}
  {
    var init, last := rows[..|rows| - 1], rows[|rows| - 1];
    assert rows == init + [last];
    forall t | t in Tuples(rule, rows)
      ensures t in Tuples(rule, init) || (Participates(rule, last) && t == Tuple(rule, last))
    {
      var r :| r in rows && Participates(rule, r) && Tuple(rule, r) == t;
      assert r in init || r == last;
    }
  }

  lemma GrowBy<T>(s: set<T>, x: T)
    ensures |s + {x}| == |s| + (if x in s then 0 else 1) && s + {} == s
  {
    if x in s {
      assert s + {x} == s;
    }
  }

  lemma {:induction false} RecordsAreRows(rule: KeyRule, rows: seq<Row>)
    requires Fits(rule, rows) && |rows| < U64
    ensures |KeyRecords(rule, rows)| == |Tuples(rule, rows)| + Repeats(rule, rows)
    decreases |rows|
  {
    if rows == [] {
      assert Tuples(rule, rows) == {};
    } else {
      RecordsAreRows(rule, rows[..|rows| - 1]);
      TuplesSnoc(rule, rows);
      GrowBy(Tuples(rule, rows[..|rows| - 1]), Tuple(rule, rows[|rows| - 1]));
    }
  }

  /** Records beyond the distinct ones are the rows that repeat an earlier key. */
  lemma RepeatsAreDuplicates(rule: KeyRule, rows: seq<Row>)
    requires Fits(rule, rows) && |rows| < U64
    ensures |KeyRecords(rule, rows)| - |Values(KeyRecords(rule, rows))| == Repeats(rule, rows)
  {
    RecordsAreRows(rule, rows);
    ValuesOfRecords(rule, rows);
    MissingTuples(rule, rows, rule, rows);
  }

  // ----- collecting keys -----------------------------------------------------------------------------

  /** One row's key: a composite rule that rejects nulls treats a row with a null as having none. */
  method RowKey(rule: KeyRule, row: Row) returns (r: KeyOutcome)
    requires Canonical.InRange(rule.columns, |row|)
    ensures r.Encoded? <==> Participates(rule, row)
    ensures r.Encoded? ==> ByteString(r.bytes) == KeyValue(rule, row)
    ensures r.HasNull? ==> Canonical.Null in Tuple(rule, row)
  {
    if !rule.marked {
      r := EncodeKey(row, rule.columns);
      return;
    }
    var sawNull;
    r, sawNull := EncodeComposite(row, rule.columns);
    if r.Encoded? && sawNull && rule.rejectNulls {
      r := HasNull;
    }
  }

  function NullKeyFinding(rule: KeyRule): Naming {
    (row: nat) => Finding(rule.name, "$dataset", Some(row), "rule rejects null keys")
  }

  ghost function NullKeyed(rule: KeyRule): Row -> bool {
    row => rule.rejectNulls && Canonical.InRange(rule.columns, |row|) && Canonical.Null in Tuple(rule, row)
  }

  /** The finding on a row whose key a rejecting rule turns away. */
  ghost function NullKeyRule(rule: KeyRule): RowRule<Row> { MarkRule(NullKeyed(rule), NullKeyFinding(rule)) }

  /** They come in row order, one for each row with a null in a key column of a rejecting rule. */
  lemma NullKeyFindingsAre(rule: KeyRule, rows: seq<Row>)
    requires Fits(rule, rows)
    ensures var fs := Along([], rows, NullKeyRule(rule));
            && (forall p | 0 <= p < |fs| :: fs[p].row.Some? && fs[p].row.value < |rows|)
            && (forall p, q | 0 <= p < q < |fs| :: fs[p].row.value < fs[q].row.value)
    ensures forall n: nat | n < |rows| ::
              (exists f :: f in Along([], rows, NullKeyRule(rule)) && f.row == Some(n)) <==>
              rule.rejectNulls && exists i :: 0 <= i < |rule.columns| && rows[n][rule.columns[i]].Null?
  {
    MarkNames(NullKeyed(rule), NullKeyFinding(rule));
    AlongMeans(rows, NullKeyRule(rule));
    forall n: nat | n < |rows|
      ensures (exists f :: f in Along([], rows, NullKeyRule(rule)) && f.row == Some(n)) <==>
              rule.rejectNulls && exists i :: 0 <= i < |rule.columns| && rows[n][rule.columns[i]].Null?
    {
      AlongRow(rows, NullKeyRule(rule), n);
      NullInTuple(rule, rows[n]);
    }
  }

  class KeyState {
    const rule: KeyRule
    const exact: ExactState
    ghost var rows: seq<Row>

    ghost predicate Valid()
      reads this, exact
    {
      exact.Valid() && Fits(rule, rows) && |rows| < U64 && exact.contents == KeyRecords(rule, rows)
    }

    constructor (rule: KeyRule, spills: bool, rowCountHint: Option<nat>, maxSamples: nat, hash: HashFunction)
      ensures Valid() && this.rule == rule && rows == [] && fresh(exact) && exact.maxSamples == maxSamples
    {
      this.rule := rule;
      exact := new ExactState(BytesKind, spills, rowCountHint, maxSamples, hash);
      rows := [];
    }

    /** Collect one batch, whose first row is row `offset` of the dataset; rejected nulls become findings. */
    method Update(batch: seq<Row>, offset: nat, validation: ValidationState) returns (r: Result<()>)
      requires Valid() && validation.Valid() && Fits(rule, batch) && offset == |rows| && |rows| + |batch| < U64
      modifies this, exact, validation
      ensures r.Success? ==> Valid() && rows == old(rows) + batch
      ensures r.Success? ==>
              validation.Valid() && validation.violationCount == old(validation.violationCount) + NullRows(rule, batch)
      ensures r.Success? ==>
              validation.events == old(validation.events) + Along(old(rows), batch, NullKeyRule(rule))
    {
      ghost var begun := rows;
      for i := 0 to |batch|
        invariant Valid() && rows == begun + batch[..i] && validation.Valid()
        invariant validation.violationCount == old(validation.violationCount) + NullRows(rule, batch[..i])
        invariant validation.events == old(validation.events) + Along(begun, batch[..i], NullKeyRule(rule))
      {
        NextRow(rule, batch, i, begun);
        AlongStep(old(validation.events), begun, batch, i, NullKeyRule(rule));
        var absorbed := Absorb(batch[i], offset + i, validation);
        if absorbed.Failure? {
          return Failure(absorbed.error);
        }
      }
      assert batch[..|batch|] == batch;
      r := Success(());
    }

    method Absorb(row: Row, index: nat, validation: ValidationState) returns (r: Result<()>)
      requires Valid() && validation.Valid() && Canonical.InRange(rule.columns, |row|) && Sized(row)
      requires index == |rows| && |rows| + 1 < U64
      modifies this, exact, validation
      ensures r.Success? ==> Valid() && rows == old(rows) + [row] && validation.Valid()
      ensures r.Success? ==> validation.violationCount == old(validation.violationCount) + NullRows(rule, [row])
      ensures r.Success? ==> validation.events == old(validation.events) + NullKeyRule(rule)(old(rows), row)
    {
      OneRow(rule, rows, row);
      var inserted := Insert(row, index);
      if inserted.Failure? {
        return Failure(inserted.error);
      }
      if !inserted.value && rule.rejectNulls {
        validation.RecordLazy(NullKeyFinding(rule)(index));
      }
      r := Success(());
    }

    /** Insert the key of one row; false when a null keeps it out. */
    method Insert(row: Row, index: nat) returns (r: Result<bool>)
      requires Valid() && Canonical.InRange(rule.columns, |row|) && Sized(row) && index == |rows| && |rows| + 1 < U64
      modifies this, exact
      ensures r.Success? ==> Valid() && rows == old(rows) + [row] && r.value == Participates(rule, row)
      ensures r.Success? && !r.value ==> Canonical.Null in Tuple(rule, row)
    {
      OneRow(rule, rows, row);
      var key := RowKey(rule, row);
      if key.UnsupportedKey? {
        return Failure(Corrupt);
      }
      if key.Encoded? {
        var inserted := exact.Insert(ByteString(key.bytes), index);
        if inserted.Failure? {
          return Failure(inserted.error);
        }
      }
      rows := rows + [row];
      r := Success(key.Encoded?);
    }

    /** One batch of a reference dataset: null keys can match nothing and are left out. */
    method Load(batch: seq<Row>, offset: nat) returns (r: Result<()>)
      requires Valid() && Fits(rule, batch) && offset == |rows| && |rows| + |batch| < U64
      modifies this, exact
      ensures r.Success? ==> Valid() && rows == old(rows) + batch
    {
      ghost var begun := rows;
      for i := 0 to |batch|
        invariant Valid() && rows == begun + batch[..i]
      {
        NextRow(rule, batch, i, begun);
        var inserted := Insert(batch[i], offset + i);
        if inserted.Failure? {
          return Failure(inserted.error);
        }
      }
      assert batch[..|batch|] == batch;
      r := Success(());
    }
  }

  lemma OneRow(rule: KeyRule, rows: seq<Row>, row: Row)
    requires Fits(rule, rows) && Canonical.InRange(rule.columns, |row|) && Sized(row) && |rows| + 1 < U64
    ensures Fits(rule, rows + [row]) && Fits(rule, [row])
    ensures KeyRecords(rule, rows + [row]) ==
            if Participates(rule, row) then KeyRecords(rule, rows) + multiset{Record(KeyValue(rule, row), |rows|)}
              else KeyRecords(rule, rows)
    ensures Participates(rule, row) && rule.rejectNulls ==> Canonical.Null !in Tuple(rule, row)
    ensures NullRows(rule, [row]) == if rule.rejectNulls && Canonical.Null in Tuple(rule, row) then 1 else 0
  {
    assert (rows + [row])[..|rows|] == rows && [row][..0] == [];
  }

  lemma NextRow(rule: KeyRule, batch: seq<Row>, i: nat, begun: seq<Row>)
    requires i < |batch| && Fits(rule, batch)
    ensures Fits(rule, batch[..i + 1]) && Fits(rule, batch[..i]) && Canonical.InRange(rule.columns, |batch[i]|) &&
            Sized(batch[i]) && Fits(rule, [batch[i]])
    ensures NullRows(rule, batch[..i + 1]) == NullRows(rule, batch[..i]) + NullRows(rule, [batch[i]])
    ensures begun + batch[..i + 1] == (begun + batch[..i]) + [batch[i]]
  {
    assert batch[i] in batch;
    assert batch[..i + 1][..i] == batch[..i] && [batch[i]][..0] == [];
  }

  // ----- the rules -----------------------------------------------------------------------------------

  lemma {:induction false} NullRowsConcat(rule: KeyRule, a: seq<Row>, b: seq<Row>)
    requires Fits(rule, a) && Fits(rule, b)
    ensures Fits(rule, a + b) && NullRows(rule, a + b) == NullRows(rule, a) + NullRows(rule, b)
    decreases |b|
  {
    if b == [] {
      assert a + b == a;
    } else {
      assert (a + b)[..|a + b| - 1] == a + b[..|b| - 1];
      NullRowsConcat(rule, a, b[..|b| - 1]);
    }
  }

  /** Scan a dataset batch by batch into key state. */
  method Collect(state: KeyState, batches: seq<seq<Row>>, validation: ValidationState) returns (r: Result<()>)
    requires state.Valid() && state.rows == [] && validation.Valid()
    requires Fits(state.rule, Flatten(batches)) && |Flatten(batches)| < U64
    modifies state, state.exact, validation
    ensures r.Success? ==> state.Valid() && state.rows == Flatten(batches) && validation.Valid()
    ensures r.Success? ==>
            validation.violationCount == old(validation.violationCount) + NullRows(state.rule, Flatten(batches))
    ensures r.Success? ==>
            validation.events == old(validation.events) + Along([], Flatten(batches), NullKeyRule(state.rule))
  {
    var offset := 0;
    for i := 0 to |batches|
      invariant state.Valid() && state.rows == Flatten(batches[..i]) && offset == |state.rows| && validation.Valid()
      invariant validation.violationCount == old(validation.violationCount) + NullRows(state.rule, state.rows)
      invariant validation.events == old(validation.events) + Along([], state.rows, NullKeyRule(state.rule))
    {
      FlattenBefore(batches, i);
      NextBatch(old(validation.events), Flatten(batches[..i]), batches[i], NullKeyRule(state.rule));
      FitsBefore(state.rule, batches, i);
      NullRowsConcat(state.rule, Flatten(batches[..i]), batches[i]);
      var updated := state.Update(batches[i], offset, validation);
      if updated.Failure? {
        return Failure(updated.error);
      }
      offset := offset + |batches[i]|;
    }
    assert batches[..|batches|] == batches;
    r := Success(());
  }

  lemma FitsBefore(rule: KeyRule, batches: seq<seq<Row>>, i: nat)
    requires i < |batches| && Fits(rule, Flatten(batches))
    ensures Fits(rule, Flatten(batches[..i])) && Fits(rule, batches[i])
  {
    FlattenBefore(batches, i);
    forall r | r in Flatten(batches[..i]) || r in batches[i] ensures r in Flatten(batches) {
      assert r in Flatten(batches[..i + 1]);
    }
  }

  function MissingFindings(samples: seq<nat>, rule: KeyRule): (r: seq<Finding>)
    ensures |r| == |samples|
    ensures forall i | 0 <= i < |r| ::
              r[i].rule == rule.name && r[i].column == rule.column && r[i].row == Some(samples[i])
  {
    seq(|samples|, i requires 0 <= i < |samples| => Finding(rule.name, rule.column, Some(samples[i]),
                                                            "key absent from the reference"))
  }

  /** The end of a reference rule: every distinct local key absent from the reference is one violation. */
  method FinishReference(local: KeyState, reference: KeyState, validation: ValidationState,
                         ghost a: KeyRule, ghost left: seq<Row>, ghost b: KeyRule, ghost right: seq<Row>)
    returns (r: Result<AntiJoinSummary>)
    requires local.Valid() && reference.Valid() && local.exact != reference.exact && validation.Valid()
    requires local.rule == a && local.rows == left && reference.rule == b && reference.rows == right
    requires AllOf(reference.exact.lists) == reference.exact.contents
    requires !a.marked && !b.marked && |a.columns| == |b.columns|
    modifies local.exact, validation
    ensures r.Success? ==> validation.Valid() && ResolvesKeys(r.value, a, left, b, right)
    ensures r.Success? ==>
            validation.violationCount == old(validation.violationCount) + |Tuples(a, left) - Tuples(b, right)|
    ensures r.Success? ==>
            && validation.events == old(validation.events) + MissingFindings(r.value.samples, a)
            && |r.value.samples| == Smaller(r.value.missing, validation.maxFindings)
            && NamesMissing(r.value.samples, a, left, b, right)
  {
    r := AntiJoinExactStates(local.exact, reference.exact, validation.maxFindings);
    if r.Failure? {
      return;
    }
    ReferenceOutcome(r.value, a, left, b, right, validation.maxFindings);
    validation.RecordSampled(MissingFindings(r.value.samples, local.rule), r.value.missing, validation.maxFindings);
  }

  ghost predicate ResolvesKeys(r: AntiJoinSummary, a: KeyRule, left: seq<Row>, b: KeyRule, right: seq<Row>)
    requires Fits(a, left) && Fits(b, right)
  {
    && r.missing == |Tuples(a, left) - Tuples(b, right)|
    && r.leftDistinct == |Tuples(a, left)| && r.rightDistinct == |Tuples(b, right)|
  }

  /** Each sample is the first row of a key the reference lacks. */
  ghost predicate NamesMissing(samples: seq<nat>, a: KeyRule, left: seq<Row>, b: KeyRule, right: seq<Row>)
    requires Fits(a, left) && Fits(b, right)
  {
    forall i | 0 <= i < |samples| :: MissingAt(samples[i], a, left, b, right)
  }

  ghost predicate MissingAt(n: nat, a: KeyRule, left: seq<Row>, b: KeyRule, right: seq<Row>)
    requires Fits(a, left) && Fits(b, right)
  {
    && n < |left| && Participates(a, left[n]) && Tuple(a, left[n]) !in Tuples(b, right)
    && forall m | 0 <= m < n && Participates(a, left[m]) :: Tuple(a, left[m]) != Tuple(a, left[n])
  }

  lemma {:induction false} KeyRecordOf(rule: KeyRule, rows: seq<Row>, n: nat)
    requires Fits(rule, rows) && |rows| < U64 && n < |rows| && Participates(rule, rows[n])
    ensures Record(KeyValue(rule, rows[n]), n) in KeyRecords(rule, rows)
    decreases |rows|
  {
    if n < |rows| - 1 {
      KeyRecordOf(rule, rows[..|rows| - 1], n);
    }
  }

  lemma {:induction false} KeyRecordFrom(rule: KeyRule, rows: seq<Row>, r: Record)
    requires Fits(rule, rows) && |rows| < U64 && r in KeyRecords(rule, rows)
    ensures r.row < |rows| && Participates(rule, rows[r.row]) && r.value == KeyValue(rule, rows[r.row])
    decreases |rows|
  {
    var n := |rows| - 1;
    if r in KeyRecords(rule, rows[..n]) {
      KeyRecordFrom(rule, rows[..n], r);
    }
  }

  /** The record of a missing key names such a row. */
  lemma MissingRecord(a: KeyRule, left: seq<Row>, b: KeyRule, right: seq<Row>, r: Record)
    requires Fits(a, left) && Fits(b, right) && |left| < U64 && |right| < U64
    requires !a.marked && !b.marked && |a.columns| == |b.columns|
    requires r in KeysMissing(KeyRecords(a, left), KeyRecords(b, right))
    ensures MissingAt(r.row, a, left, b, right)
  {
    JoinMembers(KeyRecords(a, left), KeyRecords(b, right), r);
    KeyRecordFrom(a, left, r);
    if Tuple(a, left[r.row]) in Tuples(b, right) {
      var q :| q in right && Participates(b, q) && Tuple(b, q) == Tuple(a, left[r.row]);
      var m :| 0 <= m < |right| && right[m] == q;
      KeyRecordOf(b, right, m);
    }
    forall m | 0 <= m < r.row && Participates(a, left[m]) ensures Tuple(a, left[m]) != Tuple(a, left[r.row]) {
      KeyRecordOf(a, left, m);
    }
  }

  lemma ReferenceSamples(r: AntiJoinSummary, a: KeyRule, left: seq<Row>, b: KeyRule, right: seq<Row>, maxSamples: nat)
    requires Fits(a, left) && Fits(b, right) && |left| < U64 && |right| < U64
    requires !a.marked && !b.marked && |a.columns| == |b.columns|
    requires IsAntiJoin(r, KeyRecords(a, left), KeyRecords(b, right), maxSamples)
    ensures NamesMissing(r.samples, a, left, b, right)
  {
    AntiJoinMeans(r, KeyRecords(a, left), KeyRecords(b, right), maxSamples);
    var missing := KeysMissing(KeyRecords(a, left), KeyRecords(b, right));
    forall i | 0 <= i < |r.samples| ensures MissingAt(r.samples[i], a, left, b, right) {
      MissingRecord(a, left, b, right, missing[i]);
    }
  }

  lemma ReferenceOutcome(r: AntiJoinSummary, a: KeyRule, left: seq<Row>, b: KeyRule, right: seq<Row>, maxSamples: nat)
    requires Fits(a, left) && Fits(b, right) && |left| < U64 && |right| < U64
    requires !a.marked && !b.marked && |a.columns| == |b.columns|
    requires IsAntiJoin(r, KeyRecords(a, left), KeyRecords(b, right), maxSamples)
    ensures ResolvesKeys(r, a, left, b, right) && |r.samples| == Smaller(r.missing, maxSamples)
    ensures NamesMissing(r.samples, a, left, b, right)
  {
    ReferenceCounts(a, left, b, right);
    ReferenceSamples(r, a, left, b, right, maxSamples);
    MissingSampleCount(r, KeyRecords(a, left), KeyRecords(b, right), maxSamples);
  }

  lemma ReferenceCounts(a: KeyRule, left: seq<Row>, b: KeyRule, right: seq<Row>)
    requires Fits(a, left) && Fits(b, right) && |left| < U64 && |right| < U64
    requires !a.marked && !b.marked && |a.columns| == |b.columns|
    ensures |Values(KeyRecords(a, left)) - Values(KeyRecords(b, right))| == |Tuples(a, left) - Tuples(b, right)|
    ensures |Values(KeyRecords(a, left))| == |Tuples(a, left)| && |Values(KeyRecords(b, right))| == |Tuples(b, right)|
  {
    ValuesOfRecords(a, left);
    ValuesOfRecords(b, right);
    MissingTuples(a, left, b, right);
    MissingTuples(b, right, a, left);
  }

  /** `scan_reference`: load the reference dataset and seal it. */
  method ScanReference(rule: KeyRule, batches: seq<seq<Row>>, maxSamples: nat, hash: HashFunction)
    returns (r: Result<KeyState>)
    requires Fits(rule, Flatten(batches)) && |Flatten(batches)| < U64
    ensures r.Success? ==> fresh(r.value) && fresh(r.value.exact) && r.value.Valid() && r.value.rule == rule
    ensures r.Success? ==> r.value.rows == Flatten(batches) && AllOf(r.value.exact.lists) == r.value.exact.contents
  {
    var state := new KeyState(rule, true, None, maxSamples, hash);
    var loaded := LoadAll(state, rule, batches);
    if loaded.Failure? {
      return Failure(loaded.error);
    }
    var sealed := state.exact.Seal();
    if sealed.Failure? {
      return Failure(sealed.error);
    }
    r := Success(state);
  }

  method LoadAll(state: KeyState, ghost rule: KeyRule, batches: seq<seq<Row>>) returns (r: Result<()>)
    requires state.Valid() && state.rule == rule && state.rows == []
    requires Fits(rule, Flatten(batches)) && |Flatten(batches)| < U64
    modifies state, state.exact
    ensures r.Success? ==> state.Valid() && state.rule == rule && state.rows == Flatten(batches)
  {
    var offset: nat := 0;
    for i := 0 to |batches|
      invariant Loaded(state, rule, batches, i, offset)
    {
      r := LoadNext(state, rule, batches, i, offset);
      if r.Failure? {
        return;
      }
      offset := offset + |batches[i]|;
    }
    assert batches[..|batches|] == batches;
    r := Success(());
  }

  ghost predicate Loaded(state: KeyState, rule: KeyRule, batches: seq<seq<Row>>, n: nat, offset: nat)
    reads state, state.exact
  {
    n <= |batches| && state.Valid() && state.rule == rule && state.rows == Flatten(batches[..n]) &&
      offset == |state.rows|
  }

  method LoadNext(state: KeyState, ghost rule: KeyRule, batches: seq<seq<Row>>, i: nat, offset: nat)
    returns (r: Result<()>)
    requires Fits(rule, Flatten(batches)) && |Flatten(batches)| < U64
    requires i < |batches| && Loaded(state, rule, batches, i, offset)
    modifies state, state.exact
    ensures r.Success? ==> Loaded(state, rule, batches, i + 1, offset + |batches[i]|)
  {
    FlattenBefore(batches, i);
    FitsBefore(rule, batches, i);
    r := state.Load(batches[i], offset);
  }

  /**
   A whole reference rule: scan the reference, collect the local keys, compare. Corresponding key columns
   are taken to have matching types, so that equal tuples of cells are equal values.
   */
  method CheckReferenceRule(localRule: KeyRule, referenceRule: KeyRule, localBatches: seq<seq<Row>>,
                            referenceBatches: seq<seq<Row>>,
                            validation: ValidationState, rowCountHint: Option<nat>, maxSamples: nat, hash: HashFunction)
    returns (r: Result<AntiJoinSummary>)
    requires validation.Valid()
    requires !localRule.marked && !referenceRule.marked && |localRule.columns| == |referenceRule.columns|
    requires Fits(localRule, Flatten(localBatches)) && |Flatten(localBatches)| < U64
    requires Fits(referenceRule, Flatten(referenceBatches)) && |Flatten(referenceBatches)| < U64
    modifies validation
    ensures r.Success? ==> validation.Valid()
    ensures r.Success? ==>
            ResolvesKeys(r.value, localRule, Flatten(localBatches), referenceRule, Flatten(referenceBatches))
    ensures r.Success? ==>
              var left := Tuples(localRule, Flatten(localBatches));
              var right := Tuples(referenceRule, Flatten(referenceBatches));
              r.value.leftDistinct == |left| && r.value.rightDistinct == |right| && r.value.missing == |left - right|
    ensures r.Success? ==>
              validation.violationCount == old(validation.violationCount) + NullRows(localRule, Flatten(localBatches)) +
                r.value.missing
    ensures r.Success? ==>
              validation.events == old(validation.events) + Along([], Flatten(localBatches), NullKeyRule(localRule)) +
                MissingFindings(r.value.samples, localRule)
    ensures r.Success? ==>
              |r.value.samples| == Smaller(r.value.missing, validation.maxFindings)
    ensures r.Success? ==>
              forall i | 0 <= i < |r.value.samples| ::
                var n, left := r.value.samples[i], Flatten(localBatches);
                && n < |left| && Participates(localRule, left[n])
                && Tuple(localRule, left[n]) !in Tuples(referenceRule, Flatten(referenceBatches))
                && forall m | 0 <= m < n && Participates(localRule, left[m]) ::
                     Tuple(localRule, left[m]) != Tuple(localRule, left[n])
  {
    var reference := ScanReference(referenceRule, referenceBatches, maxSamples, hash);
    if reference.Failure? {
      return Failure(reference.error);
    }
    r := CheckAgainst(reference.value, localRule, localBatches, validation, rowCountHint, maxSamples, hash,
                      Flatten(referenceBatches));
  }

  /** The subject's side of a reference rule, against a sealed reference. */
  method CheckAgainst(reference: KeyState, rule: KeyRule, batches: seq<seq<Row>>, validation: ValidationState,
                      rowCountHint: Option<nat>, maxSamples: nat, hash: HashFunction, ghost referenceRows: seq<Row>)
    returns (r: Result<AntiJoinSummary>)
    requires validation.Valid() && Fits(rule, Flatten(batches)) && |Flatten(batches)| < U64
    requires reference.Valid() && reference.rows == referenceRows &&
             AllOf(reference.exact.lists) == reference.exact.contents
    requires !rule.marked && !reference.rule.marked && |rule.columns| == |reference.rule.columns|
    modifies validation
    ensures r.Success? ==>
            validation.Valid() && ResolvesKeys(r.value, rule, Flatten(batches), reference.rule, referenceRows)
    ensures r.Success? ==>
              validation.violationCount == old(validation.violationCount) + NullRows(rule, Flatten(batches)) +
                r.value.missing
    ensures r.Success? ==>
              validation.events == old(validation.events) + Along([], Flatten(batches), NullKeyRule(rule)) +
                MissingFindings(r.value.samples, rule)
    ensures r.Success? ==>
              && |r.value.samples| == Smaller(r.value.missing, validation.maxFindings)
              && NamesMissing(r.value.samples, rule, Flatten(batches), reference.rule, referenceRows)
  {
    var local := new KeyState(rule, true, rowCountHint, maxSamples, hash);
    var collected := Collect(local, batches, validation);
    if collected.Failure? {
      return Failure(collected.error);
    }
    r := FinishReference(local, reference, validation, rule, Flatten(batches), reference.rule, referenceRows);
  }

  /** Composite uniqueness over a whole dataset: rows that repeat a key, plus rejected nulls. */
  method CheckCompositeRule(rule: KeyRule, batches: seq<seq<Row>>, validation: ValidationState, spills: bool,
                            rowCountHint: Option<nat>,
                            maxSamples: nat, hash: HashFunction) returns (r: Result<()>)
    requires validation.Valid() && rule.marked && validation.maxFindings <= maxSamples
    requires Fits(rule, Flatten(batches)) && |Flatten(batches)| < U64
    modifies validation
    ensures r.Success? ==> validation.Valid()
    ensures r.Success? ==>
              validation.violationCount == old(validation.violationCount) + NullRows(rule, Flatten(batches)) +
                Repeats(rule, Flatten(batches))
    ensures r.Success? ==>
              validation.events == old(validation.events) + Along([], Flatten(batches), NullKeyRule(rule)) +
                DuplicateFindings(Take(Duplicates(KeyRecords(rule, Flatten(batches))), maxSamples), rule.name,
                                  "$dataset",
                                  "duplicate key")
  {
    var state := new KeyState(rule, spills, rowCountHint, maxSamples, hash);
    r := Collect(state, batches, validation);
    if r.Failure? {
      return;
    }
    ghost var contents := state.exact.contents;
    var summary := state.exact.Finish();
    if summary.Failure? {
      return Failure(summary.error);
    }
    RepeatsAreDuplicates(rule, Flatten(batches));
    RecordDuplicates(validation, summary.value, rule.name, "$dataset", "duplicate key", contents, maxSamples);
  }
}
