/**
 Rules without global state, scanned over one stream or over independent partitions: the merged
 report of the partitions equals the report of one ordered traversal.
 */
module Partition {
  import opened Arithmetic
  import opened Bytes
  import opened Records
  import opened Sequences
  import opened Summary
  import opened Findings
  import opened Workers

  /**
   A compiled plan without global state, over batches of type B. Column rules come first, then row
   rules; `scan(k, b)` lists the violations rule k finds in one batch, with rows counted within it.
   */
  datatype Plan<!B> = Plan(limit: nat, rules: nat, scan: (nat, B) -> seq<Finding>, rowCount: B -> nat,
                           columns: nat, offered: (nat, B) -> nat, indices: seq<nat>)

  // ----- the ordered traversal as a function of the batches ----------------------------------------

  function ShiftRow(f: Finding, offset: nat): Finding {
    if f.row.Some? then f.(row := Some(f.row.value + offset)) else f
  }

  /** A finding of a later part keeps all but its row, which moves past the rows before it. */
  lemma ShiftMeans(f: Finding, rowsBefore: nat)
    ensures var g := ShiftRow(f, rowsBefore);
            && g.rule == f.rule && g.column == f.column && g.message == f.message
            && if f.row.None? then g.row.None? else g.row == Some(f.row.value + rowsBefore)
  {
  }

  function Shift(fs: seq<Finding>, offset: nat): (r: seq<Finding>)
    ensures |r| == |fs|
  {
    seq(|fs|, i requires 0 <= i < |fs| => ShiftRow(fs[i], offset))
  }

  ghost function RuleFindings<B>(plan: Plan<B>, batch: B, k: nat): seq<Finding> {
    if k == 0 then [] else RuleFindings(plan, batch, k - 1) + plan.scan(k - 1, batch)
  }

  ghost function TotalRows<B>(plan: Plan<B>, batches: seq<B>): nat {
    if batches == [] then 0 else TotalRows(plan, batches[..|batches| - 1]) + plan.rowCount(batches[|batches| - 1])
  }

  /** Every violation of a stream, in traversal order, with rows counted from its start. */
  ghost function AllFindings<B>(plan: Plan<B>, batches: seq<B>): seq<Finding> {
    if batches == [] then []
    else
      var init := batches[..|batches| - 1];
      AllFindings(plan, init) + Shift(RuleFindings(plan, batches[|batches| - 1], plan.rules), TotalRows(plan, init))
  }

  ghost function Offered<B>(plan: Plan<B>, column: nat, batches: seq<B>): nat {
    if batches == [] then 0
      else Offered(plan, column, batches[..|batches| - 1]) + plan.offered(column, batches[|batches| - 1])
  }

  function Capped(n: nat): u64 { if n < U64 then n else U64 - 1 }

  ghost function Evaluated<B>(plan: Plan<B>, batches: seq<B>): (r: seq<u64>)
    ensures |r| == plan.columns
  {
    seq(plan.columns, c requires 0 <= c < plan.columns => Capped(Offered(plan, c, batches)))
  }

  /** The report of one ordered traversal, metrics apart. */
  ghost function ReportOf<B>(plan: Plan<B>, batches: seq<B>): (r: Report)
    ensures Consistent(r, plan.limit)
  {
    var all := AllFindings(plan, batches);
    Report(all == [], |all|, |all| > plan.limit, Take(all, plan.limit), TotalRows(plan, batches),
           Evaluated(plan, batches), plan.indices)
  }

  // ----- what a report says, finding by finding -------------------------------------------------------

  lemma {:induction false} RuleFindingAt<B>(plan: Plan<B>, batch: B, n: nat, k: nat, q: nat)
    requires k < n && q < |plan.scan(k, batch)|
    ensures var p := |RuleFindings(plan, batch, k)| + q;
            p < |RuleFindings(plan, batch, n)| && RuleFindings(plan, batch, n)[p] == plan.scan(k, batch)[q]
    decreases n
  {
    if k < n - 1 {
      RuleFindingAt(plan, batch, n - 1, k, q);
    }
  }

  lemma {:induction false} RowsBefore<B>(plan: Plan<B>, batches: seq<B>, offsets: seq<nat>, i: nat)
    requires i <= |batches| && |offsets| == |batches| + 1 && offsets[0] == 0
    requires forall j {:trigger batches[j]} | 0 <= j < |batches| ::
             offsets[j + 1] == offsets[j] + plan.rowCount(batches[j])
    ensures TotalRows(plan, batches[..i]) == offsets[i]
  {
    if i > 0 {
      RowsBefore(plan, batches, offsets, i - 1);
      SplitLast(batches, i - 1);
    }
  }

  lemma {:induction false} FindingKept<B>(plan: Plan<B>, batches: seq<B>, i: nat, k: nat, q: nat)
    requires i < |batches| && k < plan.rules && q < |plan.scan(k, batches[i])|
    ensures var p := |AllFindings(plan, batches[..i])| + |RuleFindings(plan, batches[i], k)| + q;
            p < |AllFindings(plan, batches)| &&
              AllFindings(plan, batches)[p] == ShiftRow(plan.scan(k, batches[i])[q], TotalRows(plan, batches[..i]))
    decreases |batches|
  {
    var n := |batches| - 1;
    if i < n {
      FindingKept(plan, batches[..n], i, k, q);
      assert batches[..n][..i] == batches[..i];
    } else {
      RuleFindingAt(plan, batches[i], plan.rules, k, q);
    }
  }

  /**
   Each violation keeps its rule, column and message, and its row is counted from the start of the stream:
   `offsets` are the numbers of rows before each batch.
   */
  lemma FindingAt<B>(plan: Plan<B>, batches: seq<B>, offsets: seq<nat>, i: nat, k: nat, q: nat, p: nat)
    requires |offsets| == |batches| + 1 && offsets[0] == 0
    requires forall j {:trigger batches[j]} | 0 <= j < |batches| ::
             offsets[j + 1] == offsets[j] + plan.rowCount(batches[j])
    requires i < |batches| && k < plan.rules && q < |plan.scan(k, batches[i])|
    requires p == |AllFindings(plan, batches[..i])| + |RuleFindings(plan, batches[i], k)| + q
    ensures var f := plan.scan(k, batches[i])[q];
            && p < |AllFindings(plan, batches)|
            && var g := AllFindings(plan, batches)[p];
            && g.rule == f.rule && g.column == f.column && g.message == f.message
            && (f.row.None? ==> g.row.None?)
            && (f.row.Some? ==> g.row == Some(f.row.value + offsets[i]))
            && (p < plan.limit ==> p < |ReportOf(plan, batches).findings| && ReportOf(plan, batches).findings[p] == g)
  {
    FindingMoved(plan, batches, offsets, i, k, q, p);
    if p < plan.limit {
      FindingReported(plan, batches, p);
    }
  }

  lemma FindingMoved<B>(plan: Plan<B>, batches: seq<B>, offsets: seq<nat>, i: nat, k: nat, q: nat, p: nat)
    requires |offsets| == |batches| + 1 && offsets[0] == 0
    requires forall j {:trigger batches[j]} | 0 <= j < |batches| ::
             offsets[j + 1] == offsets[j] + plan.rowCount(batches[j])
    requires i < |batches| && k < plan.rules && q < |plan.scan(k, batches[i])|
    requires p == |AllFindings(plan, batches[..i])| + |RuleFindings(plan, batches[i], k)| + q
    ensures var f := plan.scan(k, batches[i])[q];
            && p < |AllFindings(plan, batches)|
            && var g := AllFindings(plan, batches)[p];
            && g.rule == f.rule && g.column == f.column && g.message == f.message
            && if f.row.None? then g.row.None? else g.row == Some(f.row.value + offsets[i])
  {
    RowsBefore(plan, batches, offsets, i);
    FindingKept(plan, batches, i, k, q);
    ShiftMeans(plan.scan(k, batches[i])[q], offsets[i]);
  }

  /** The first findings, up to the limit, are the ones reported. */
  lemma FindingReported<B>(plan: Plan<B>, batches: seq<B>, p: nat)
    requires p < |AllFindings(plan, batches)| && p < plan.limit
    ensures p < |ReportOf(plan, batches).findings|
    ensures ReportOf(plan, batches).findings[p] == AllFindings(plan, batches)[p]
  {
  }

  /** Where the findings of a batch and of a rule begin: each takes as many places as it has violations. */
  lemma FindingPlaces<B>(plan: Plan<B>, batches: seq<B>, i: nat, k: nat)
    requires i < |batches|
    ensures AllFindings(plan, batches[..0]) == [] && RuleFindings(plan, batches[i], 0) == []
    ensures |AllFindings(plan, batches[..i + 1])| ==
            |AllFindings(plan, batches[..i])| + |RuleFindings(plan, batches[i], plan.rules)|
    ensures |RuleFindings(plan, batches[i], k + 1)| ==
            |RuleFindings(plan, batches[i], k)| + |plan.scan(k, batches[i])|
    ensures batches[..|batches|] == batches
  {
    SplitLast(batches, i);
  }

  lemma {:induction false} OfferedBefore<B>(plan: Plan<B>, batches: seq<B>, column: nat, totals: seq<nat>, i: nat)
    requires i <= |batches| && |totals| == |batches| + 1 && totals[0] == 0
    requires forall j {:trigger batches[j]} | 0 <= j < |batches| ::
             totals[j + 1] == totals[j] + plan.offered(column, batches[j])
    ensures Offered(plan, column, batches[..i]) == totals[i]
  {
    if i > 0 {
      OfferedBefore(plan, batches, column, totals, i - 1);
      SplitLast(batches, i - 1);
    }
  }

  /** The counters of a report: violations, retained findings, rows, and the values each column offered. */
  lemma ReportCounts<B>(plan: Plan<B>, batches: seq<B>, offsets: seq<nat>, column: nat, totals: seq<nat>)
    requires |offsets| == |totals| == |batches| + 1 && offsets[0] == totals[0] == 0
    requires forall j {:trigger batches[j]} | 0 <= j < |batches| ::
             offsets[j + 1] == offsets[j] + plan.rowCount(batches[j])
    requires forall j {:trigger batches[j]} | 0 <= j < |batches| ::
             totals[j + 1] == totals[j] + plan.offered(column, batches[j])
    ensures var r := ReportOf(plan, batches); var n := |AllFindings(plan, batches)|;
            && r.violationCount == n && (r.valid <==> n == 0) && (r.truncated <==> n > plan.limit)
            && |r.findings| == (if n <= plan.limit then n else plan.limit) && r.rows == offsets[|batches|]
            && r.evaluatedIndices == plan.indices && |r.evaluatedColumns| == plan.columns
            && (column < plan.columns ==>
                && column < |r.evaluatedColumns|
                && r.evaluatedColumns[column] ==
                   if totals[|batches|] < 0x1_0000_0000_0000_0000 then totals[|batches|] else 0xffff_ffff_ffff_ffff)
  {
    RowsBefore(plan, batches, offsets, |batches|);
    OfferedBefore(plan, batches, column, totals, |batches|);
    assert batches[..|batches|] == batches;
  }

  // ----- the traversal as the engine runs it -----------------------------------------------------------

  /** `execute_reader_inner` for a plan without global state. */
  method ExecuteReader<B>(plan: Plan<B>, batches: seq<B>) returns (r: Result<Report>)
    ensures r.Success? ==> r.value == ReportOf(plan, batches)
  {
    var validation := new ValidationState(plan.limit, true);
    validation.PrepareEvaluated(plan.columns);
    var rows := 0;
    for i := 0 to |batches|
      invariant fresh(validation) && validation.Valid() && validation.resourceError.None? &&
                validation.maxFindings == plan.limit
      invariant validation.events == AllFindings(plan, batches[..i]) && validation.remainder == 0
      invariant validation.evaluated == Evaluated(plan, batches[..i]) && rows == TotalRows(plan, batches[..i])
    {
      var cancelled: bool := *;
      if cancelled {
        return Failure(Limit);
      }
      ghost var before := validation.events;
      CountOffered(plan, batches[i], validation, batches[..i]);
      var scanned := ScanBatch(plan, batches[i], rows, validation);
      if scanned.Failure? {
        return Failure(scanned.error);
      }
      SplitLast(batches, i);
      rows := rows + plan.rowCount(batches[i]);
    }
    assert batches[..|batches|] == batches;
    var report := BuildReport(validation, rows, plan.indices);
    r := Success(report);
  }

  method CountOffered<B>(plan: Plan<B>, batch: B, validation: ValidationState, ghost seen: seq<B>)
    requires validation.Valid() && validation.evaluated == Evaluated(plan, seen)
    modifies validation`evaluated
    ensures validation.Valid() && validation.evaluated == Evaluated(plan, seen + [batch])
  {
    assert (seen + [batch])[..|seen|] == seen;
    for c := 0 to plan.columns
      invariant validation.Valid() && |validation.evaluated| == plan.columns
      invariant forall k | 0 <= k < plan.columns ::
          validation.evaluated[k] == if k < c then Capped(Offered(plan, k, seen + [batch]))
            else Capped(Offered(plan, k, seen))
    {
      validation.RecordEvaluated(c, plan.offered(c, batch));
    }
  }

  /** All rules over one batch; resources are checked after each rule. */
  method ScanBatch<B>(plan: Plan<B>, batch: B, rows: nat, validation: ValidationState) returns (r: Result<()>)
    requires validation.Valid() && validation.resourceError.None?
    modifies validation
    ensures r.Success? ==> validation.Valid() && validation.resourceError.None?
    ensures r.Success? ==>
            validation.events == old(validation.events) + Shift(RuleFindings(plan, batch, plan.rules), rows)
    ensures r.Success? ==>
            validation.remainder == old(validation.remainder) && validation.evaluated == old(validation.evaluated)
  {
    ghost var begun := validation.events;
    for k := 0 to plan.rules
      invariant validation.Valid() && validation.resourceError.None?
      invariant validation.events == begun + Shift(RuleFindings(plan, batch, k), rows)
      invariant validation.remainder == old(validation.remainder) && validation.evaluated == old(validation.evaluated)
    {
      ShiftConcat(begun, RuleFindings(plan, batch, k), plan.scan(k, batch), rows);
      RecordAll(validation, plan.scan(k, batch), rows);
      var checked := validation.CheckResources();
      if checked.Failure? {
        return Failure(checked.error);
      }
    }
    r := Success(());
  }

  lemma ShiftConcat(begun: seq<Finding>, a: seq<Finding>, b: seq<Finding>, offset: nat)
    ensures (begun + Shift(a, offset)) + Shift(b, offset) == begun + Shift(a + b, offset)
  {
  }

  method RecordAll(validation: ValidationState, findings: seq<Finding>, rows: nat)
    requires validation.Valid()
    modifies validation
    ensures validation.Valid() && validation.events == old(validation.events) + Shift(findings, rows)
    ensures validation.remainder == old(validation.remainder) && validation.evaluated == old(validation.evaluated)
  {
    ghost var begun := validation.events;
    for i := 0 to |findings|
      invariant validation.Valid() && validation.events == begun + Shift(findings, rows)[..i]
      invariant validation.remainder == old(validation.remainder) && validation.evaluated == old(validation.evaluated)
    {
      validation.RecordLazy(ShiftRow(findings[i], rows));
      TakeOneMore(begun, Shift(findings, rows), i);
    }
    assert Shift(findings, rows)[..|findings|] == Shift(findings, rows);
  }

  // ----- partitions ----------------------------------------------------------------------------------

  lemma {:induction false} RowsConcat<B>(plan: Plan<B>, a: seq<B>, b: seq<B>)
    ensures TotalRows(plan, a + b) == TotalRows(plan, a) + TotalRows(plan, b)
    decreases |b|
  {
    if b == [] {
      assert a + b == a;
    } else {
      assert (a + b)[..|a + b| - 1] == a + b[..|b| - 1];
      RowsConcat(plan, a, b[..|b| - 1]);
    }
  }

  lemma {:induction false} OfferedConcat<B>(plan: Plan<B>, column: nat, a: seq<B>, b: seq<B>)
    ensures Offered(plan, column, a + b) == Offered(plan, column, a) + Offered(plan, column, b)
    decreases |b|
  {
    if b == [] {
      assert a + b == a;
    } else {
      assert (a + b)[..|a + b| - 1] == a + b[..|b| - 1];
      OfferedConcat(plan, column, a, b[..|b| - 1]);
    }
  }

  /** Findings of a later partition are its own findings moved past the rows before it. */
  lemma {:induction false} FindingsConcat<B>(plan: Plan<B>, a: seq<B>, b: seq<B>)
    ensures AllFindings(plan, a + b) == AllFindings(plan, a) + Shift(AllFindings(plan, b), TotalRows(plan, a))
    decreases |b|
  {
    var offset := TotalRows(plan, a);
    if b == [] {
      assert a + b == a;
    } else {
      var init, last := b[..|b| - 1], RuleFindings(plan, b[|b| - 1], plan.rules);
      assert (a + b)[..|a + b| - 1] == a + init;
      FindingsConcat(plan, a, init);
      RowsConcat(plan, a, init);
      ShiftTwice(last, TotalRows(plan, init), offset);
      ShiftConcat(AllFindings(plan, a), AllFindings(plan, init), Shift(last, TotalRows(plan, init)), offset);
    }
  }

  lemma ShiftTwice(fs: seq<Finding>, first: nat, second: nat)
    ensures Shift(Shift(fs, first), second) == Shift(fs, second + first)
  {
  }

  /** Keeping the first `limit` of a concatenation needs only the first `limit` of each part. */
  lemma TakeOfConcat(a: seq<Finding>, b: seq<Finding>, offset: nat, limit: nat)
    ensures Take(a + Shift(b, offset), limit)
            == Take(a, limit) + Shift(Take(b, limit), offset)[..Smaller(|Take(b, limit)|, limit - |Take(a, limit)|)]
  {
  }

  // ----- merging reports -----------------------------------------------------------------------------

  /** The traversal's own 64-bit row numbers and counters do not overflow. */
  ghost predicate Counts<B>(plan: Plan<B>, batches: seq<B>) {
    && TotalRows(plan, batches) < U64 && |AllFindings(plan, batches)| < U64
    && forall f | f in AllFindings(plan, batches) :: f.row.Some? ==> f.row.value < U64
  }

  /** The state of `merge_reports` once it has consumed the partitions whose batches are `seen`. */
  ghost predicate MergedSoFar<B>(plan: Plan<B>, seen: seq<B>, started: bool, findings: seq<Finding>, rowOffset: nat,
                                 violationCount: nat, evaluated: seq<u64>, indices: seq<nat>) {
    && findings == Take(AllFindings(plan, seen), plan.limit)
    && violationCount == |AllFindings(plan, seen)| && rowOffset == TotalRows(plan, seen)
    && (if started then evaluated == Evaluated(plan, seen) && indices == plan.indices
        else seen == [] && evaluated == [] && indices == [])
  }

  lemma CountsPrefix<B>(plan: Plan<B>, parts: seq<seq<B>>, i: nat)
    requires i < |parts| && Counts(plan, Flatten(parts))
    ensures Counts(plan, Flatten(parts[..i]) + parts[i]) && Flatten(parts[..i + 1]) == Flatten(parts[..i]) + parts[i]
  {
    FlattenPrefix(parts, i + 1);
    SplitLast(parts, i);
    var seen := Flatten(parts[..i + 1]);
    var rest :| Flatten(parts) == seen + rest;
    RowsConcat(plan, seen, rest);
    FindingsConcat(plan, seen, rest);
  }

  /** `merge_reports`, metrics apart. */
  method MergeReports<B>(reports: seq<Report>, plan: Plan<B>, ghost parts: seq<seq<B>>) returns (report: Report)
    requires |reports| == |parts| > 0 && Counts(plan, Flatten(parts))
    requires forall i | 0 <= i < |reports| :: reports[i] == ReportOf(plan, parts[i])
    ensures report == ReportOf(plan, Flatten(parts))
  {
    var findings, rowOffset, violationCount := [], 0, 0;
    var evaluated: seq<u64>, indices: seq<nat> := [], [];
    for i := 0 to |reports|
      invariant MergedSoFar(plan, Flatten(parts[..i]), i > 0, findings, rowOffset, violationCount, evaluated, indices)
    {
      CountsPrefix(plan, parts, i);
      findings, rowOffset, violationCount, evaluated, indices :=
        MergeOne(reports[i], plan, Flatten(parts[..i]), parts[i], i > 0, findings, rowOffset, violationCount, evaluated,
                 indices);
    }
    assert parts[..|reports|] == parts;
    report := Report(violationCount == 0, violationCount, |findings| < violationCount, findings, rowOffset, evaluated,
                     indices);
  }

  method MergeOne<B>(part: Report, plan: Plan<B>, ghost seen: seq<B>, ghost batches: seq<B>, ghost started: bool,
                     findings: seq<Finding>,
                     rowOffset: nat, violationCount: nat, evaluated: seq<u64>, indices: seq<nat>)
    returns (kept: seq<Finding>, rows: nat, violations: nat, counts: seq<u64>, columns: seq<nat>)
    requires MergedSoFar(plan, seen, started, findings, rowOffset, violationCount, evaluated, indices)
    requires part == ReportOf(plan, batches) && Counts(plan, seen + batches)
    ensures MergedSoFar(plan, seen + batches, true, kept, rows, violations, counts, columns)
  {
    MergedStep(plan, seen, batches, findings, part.findings);
    PartRows(plan, seen, batches);
    EvaluatedStep(plan, seen, batches, started, evaluated);
    violations := SaturatingAdd(violationCount, part.violationCount);
    columns := if |indices| < |part.evaluatedIndices| then part.evaluatedIndices else indices;
    counts := AddEvaluated(evaluated, part.evaluatedColumns);
    kept := AppendFindings(findings, part.findings, rowOffset, plan.limit);
    rows := SaturatingAdd(rowOffset, part.rows);
  }

  lemma PartRows<B>(plan: Plan<B>, seen: seq<B>, part: seq<B>)
    requires Counts(plan, seen + part)
    ensures forall f | f in Take(AllFindings(plan, part), plan.limit) :: f.row.Some? ==>
            TotalRows(plan, seen) + f.row.value < U64
  {
    FindingsConcat(plan, seen, part);
    var moved := Shift(AllFindings(plan, part), TotalRows(plan, seen));
    forall f | f in Take(AllFindings(plan, part), plan.limit) && f.row.Some?
      ensures TotalRows(plan, seen) + f.row.value < U64
    {
      var i :| 0 <= i < |AllFindings(plan, part)| && AllFindings(plan, part)[i] == f;
      assert moved[i] in AllFindings(plan, seen + part);
    }
  }

  lemma MergedStep<B>(plan: Plan<B>, seen: seq<B>, part: seq<B>, kept: seq<Finding>, more: seq<Finding>)
    requires kept == Take(AllFindings(plan, seen), plan.limit) && more == Take(AllFindings(plan, part), plan.limit)
    ensures TotalRows(plan, seen + part) == TotalRows(plan, seen) + TotalRows(plan, part)
    ensures |AllFindings(plan, seen + part)| == |AllFindings(plan, seen)| + |AllFindings(plan, part)|
    ensures Take(AllFindings(plan, seen + part), plan.limit)
            == kept + Shift(more, TotalRows(plan, seen))[..Smaller(|more|, plan.limit - |kept|)]
  {
    RowsConcat(plan, seen, part);
    FindingsConcat(plan, seen, part);
    TakeOfConcat(AllFindings(plan, seen), AllFindings(plan, part), TotalRows(plan, seen), plan.limit);
  }

  function Added(a: seq<u64>, b: seq<u64>): (r: seq<u64>)
    ensures |r| == if |a| < |b| then |b| else |a|
  {
    var n := if |a| < |b| then |b| else |a|;
    seq(n, k requires 0 <= k < n => SaturatingAdd(if k < |a| then a[k] else 0, if k < |b| then b[k] else 0))
  }

  lemma EvaluatedStep<B>(plan: Plan<B>, seen: seq<B>, part: seq<B>, started: bool, evaluated: seq<u64>)
    requires if started then evaluated == Evaluated(plan, seen) else seen == [] && evaluated == []
    ensures Added(evaluated, Evaluated(plan, part)) == Evaluated(plan, seen + part)
  {
    forall c | 0 <= c < plan.columns
      ensures SaturatingAdd(if started then Capped(Offered(plan, c, seen)) else 0, Capped(Offered(plan, c, part))) ==
              Capped(Offered(plan, c, seen + part))
    {
      OfferedConcat(plan, c, seen, part);
    }
  }

  method AddEvaluated(totals: seq<u64>, parts: seq<u64>) returns (r: seq<u64>)
    ensures r == Added(totals, parts)
  {
    r := totals;
    if |r| < |parts| {
      r := r + seq(|parts| - |r|, _ => 0);
    }
    for k := 0 to |parts|
      invariant |r| == |Added(totals, parts)|
      invariant forall j | 0 <= j < |r| ::
                r[j] == if j < k then Added(totals, parts)[j] else if j < |totals| then totals[j] else 0
    {
      r := r[k := SaturatingAdd(r[k], parts[k])];
    }
  }

  method AppendFindings(findings: seq<Finding>, more: seq<Finding>, rowOffset: nat, limit: nat)
    returns (r: seq<Finding>)
    requires |findings| <= limit
    requires forall f | f in more :: f.row.Some? ==> rowOffset + f.row.value < U64
    ensures r == findings + Shift(more, rowOffset)[..Smaller(|more|, limit - |findings|)]
  {
    r := findings;
    for k := 0 to |more|
      invariant r == findings + Shift(more, rowOffset)[..Smaller(k, limit - |findings|)]
    {
      if |r| == limit {
        break;
      }
      var f := more[k];
      TakeOneMore(findings, Shift(more, rowOffset), k);
      r := r + [if f.row.Some? then f.(row := Some(SaturatingAdd(rowOffset, f.row.value))) else f];
    }
  }

  // ----- the whole partitioned execution -------------------------------------------------------------

  /** Executing partition i alone either fails or reports its own ordered traversal. */
  ghost predicate Produces<B>(plan: Plan<B>, parts: seq<seq<B>>, i: nat, r: Result<Report>) {
    i < |parts| && (r.Success? ==> r.value == ReportOf(plan, parts[i]))
  }

  /** Reading the slots in order: the first failure, or every report. */
  method Collect(slots: seq<Option<Result<Report>>>) returns (r: Result<seq<Report>>)
    requires forall i | 0 <= i < |slots| :: slots[i].Some?
    ensures r.Success? <==> forall i | 0 <= i < |slots| :: slots[i].value.Success?
    ensures r.Success? ==> |r.value| == |slots| && forall i | 0 <= i < |slots| :: r.value[i] == slots[i].value.value
    ensures r.Failure? ==> exists i :: 0 <= i < |slots| && slots[i].value == Failure(r.error)
                                       && forall k | 0 <= k < i :: slots[k].value.Success?
  {
    var reports := [];
    for i := 0 to |slots|
      invariant |reports| == i
      invariant forall k | 0 <= k < i :: slots[k].value.Success? && reports[k] == slots[k].value.value
    {
      if slots[i].value.Failure? {
        return Failure(slots[i].value.error);
      }
      reports := reports + [slots[i].value.value];
    }
    r := Success(reports);
  }

  /** After any interleaving of any number of workers, the result is that of one ordered traversal. */
  method ExecuteIndependentPartitions<B>(plan: Plan<B>, parts: seq<seq<B>>, slots: seq<Option<Result<Report>>>,
                                         ghost run: seq<State<Result<Report>>>, ghost workers: nat)
    returns (r: Result<Report>)
    requires parts != [] && workers > 0 && Counts(plan, Flatten(parts))
    requires Run(run, |parts|, workers, (i, result) => Produces(plan, parts, i, result))
    requires Joined(run[|run| - 1]) && slots == run[|run| - 1].slots
    ensures r.Success? ==> r.value == ReportOf(plan, Flatten(parts)) && Consistent(r.value, plan.limit)
    ensures r.Success? <==> forall i | 0 <= i < |slots| :: slots[i].Some? && slots[i].value.Success?
  {
    EveryRunFillsAllSlots(run, |parts|, workers, (i, result) => Produces(plan, parts, i, result));
    var reports := Collect(slots);
    if reports.Failure? {
      return Failure(reports.error);
    }
    var merged := MergeReports(reports.value, plan, parts);
    r := Success(merged);
  }

  // ----- the sequential route --------------------------------------------------------------------------

  /** `PartitionSequence`: the readers one after another, as a single stream of items. */
  class PartitionSequence<T(==)> {
    var readers: seq<seq<T>>

    constructor (readers: seq<seq<T>>)
      ensures this.readers == readers
    {
      this.readers := readers;
    }

    method Next() returns (item: Option<T>)
      modifies this
      ensures item.None? ==> Flatten(old(readers)) == [] && readers == []
      ensures item.Some? ==> Flatten(old(readers)) == [item.value] + Flatten(readers)
    {
      ghost var begun := Flatten(readers);
      while readers != []
        invariant Flatten(readers) == begun
        decreases |readers|
      {
        FlattenHead(readers);
        if readers[0] != [] {
          item := Some(readers[0][0]);
          FlattenTail(readers);
          readers := readers[0 := readers[0][1..]];
          return;
        }
        readers := readers[1..];
      }
      item := None;
    }
  }

}
