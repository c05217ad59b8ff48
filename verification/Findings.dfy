/**
 Exact counting with bounded retention: violations are always counted, findings are kept only while
 there is room, and every report built from the two satisfies the checks its evidence must pass.
 */
module Findings {
  import opened Arithmetic
  import opened Bytes
  import opened Records
  import opened Sequences
  import opened Summary
  import opened ExactState

  datatype Finding = Finding(rule: string, column: string, row: Option<nat>, message: string)

  /** The findings kept out of everything announced, and the count that covers the rest. */
  ghost predicate Retains(findings: seq<Finding>, violationCount: nat, events: seq<Finding>, remainder: nat,
                          limit: nat) {
    && violationCount == |events| + remainder
    && findings == Take(events, limit)
    && (remainder > 0 ==> limit <= |events|)
  }

  lemma RetainedCount(findings: seq<Finding>, violationCount: nat, events: seq<Finding>, remainder: nat, limit: nat)
    requires Retains(findings, violationCount, events, remainder, limit)
    ensures |findings| == Smaller(violationCount, limit)
  {
  }

  lemma RetainOneMore(findings: seq<Finding>, count: nat, events: seq<Finding>, remainder: nat, limit: nat, f: Finding)
    requires Retains(findings, count, events, remainder, limit)
    ensures Retains(if |findings| < limit then findings + [f] else findings, count + 1, events + [f], remainder, limit)
  {
  }

  /**
   A finding is retained while there is room and memory; the first refusal is remembered, and from then
   on nothing more is retained.
   */
  predicate RetainedOne(before: seq<Finding>, errorBefore: Option<Error>, after: seq<Finding>,
                        errorAfter: Option<Error>,
                        f: Finding, maxFindings: nat, accounted: bool) {
    if |before| >= maxFindings || (accounted && errorBefore.Some?) then after == before && errorAfter == errorBefore
    else
      || (after == before + [f] && errorAfter == errorBefore)
      || (accounted && after == before && errorAfter == Some(Limit))
  }

  /** What `ValidationState::finish` hands to the report. */
  datatype ValidationOutcome = ValidationOutcome(findings: seq<Finding>, violationCount: nat, truncated: bool,
                                                 evaluated: seq<u64>)

  function SaturatingAdd(a: nat, b: nat): (r: u64) { if a + b < U64 then a + b else U64 - 1 }

  class ValidationState {
    const maxFindings: nat
    const accounted: bool
    var findings: seq<Finding>
    var violationCount: nat
    var evaluated: seq<u64>
    var resourceError: Option<Error>
    /** Everything announced so far in order, and the violations counted without being announced. */
    ghost var events: seq<Finding>
    ghost var remainder: nat

    /** While no reservation has failed, nothing that should have been retained is missing. */
    ghost predicate Valid()
      reads this
    {
      && violationCount == |events| + remainder
      && (resourceError.None? ==> Retains(findings, violationCount, events, remainder, maxFindings))
    }

    constructor (maxFindings: nat, accounted: bool)
      ensures Valid() && this.maxFindings == maxFindings && this.accounted == accounted
      ensures resourceError.None? && events == [] && remainder == 0 && evaluated == [] && findings == []
    {
      this.maxFindings, this.accounted := maxFindings, accounted;
      findings, violationCount, evaluated, resourceError := [], 0, [], None;
      events, remainder := [], 0;
    }

    method ReserveFinding() returns (granted: bool)
      modifies this`resourceError
      ensures !granted ==>
              accounted && resourceError == if old(resourceError).Some? then old(resourceError) else Some(Limit)
      ensures granted ==> resourceError == old(resourceError)
      ensures old(resourceError).Some? && accounted ==> !granted && resourceError == old(resourceError)
    {
      if !accounted {
        return true;
      }
      if resourceError.Some? {
        return false;
      }
      granted := Reserve();
      if !granted {
        resourceError := Some(Limit);
      }
    }

    /** Counts the violation, and retains it unless the list is full or its memory was refused. */
    method Record(f: Finding)
      requires Valid()
      modifies this
      ensures Valid() && events == old(events) + [f] && remainder == old(remainder) && evaluated == old(evaluated)
      ensures violationCount == old(violationCount) + 1
      ensures RetainedOne(old(findings), old(resourceError), findings, resourceError, f, maxFindings, accounted)
    {
      RetainIfIntact(f);
      violationCount, events := violationCount + 1, events + [f];
      if |findings| < maxFindings {
        var granted := ReserveFinding();
        if !granted {
          return;
        }
        findings := findings + [f];
      }
    }

    lemma RetainIfIntact(f: Finding)
      requires Valid()
      ensures resourceError.None? ==>
                Retains(if |findings| < maxFindings then findings + [f] else findings,
                        violationCount + 1, events + [f], remainder, maxFindings)
    {
      if resourceError.None? {
        RetainOneMore(findings, violationCount, events, remainder, maxFindings, f);
      }
    }

    /** `record_lazy`: the finding is only built when there is room for it. */
    method RecordLazy(f: Finding)
      requires Valid()
      modifies this
      ensures Valid() && events == old(events) + [f] && remainder == old(remainder) && evaluated == old(evaluated)
      ensures violationCount == old(violationCount) + 1
      ensures RetainedOne(old(findings), old(resourceError), findings, resourceError, f, maxFindings, accounted)
    {
      if |findings| < maxFindings {
        Record(f);
      } else {
        RetainIfIntact(f);
        violationCount, events := violationCount + 1, events + [f];
      }
    }

    /** `check_resources`: a refused reservation ends the execution. */
    method CheckResources() returns (r: Result<()>)
      requires Valid()
      modifies this`resourceError
      ensures r.Success? ==> old(resourceError).None? && resourceError.None? && Valid()
      ensures r.Failure? ==> old(resourceError) == Some(r.error)
    {
      if resourceError.Some? {
        r := Failure(resourceError.value);
        resourceError := None;
        return;
      }
      r := Success(());
    }

    /**
     A rule that samples its violations announces the sample and adds the rest. The sample is the
     whole list when it is shorter than `limit`, so a remainder only arises once the list is full.
     */
    method RecordSampled(samples: seq<Finding>, total: nat, ghost limit: nat)
      requires Valid() && |samples| == Smaller(total, limit) && maxFindings <= limit
      modifies this
      ensures Valid() && events == old(events) + samples && evaluated == old(evaluated)
      ensures violationCount == old(violationCount) + total
      ensures accounted && old(resourceError).Some? ==> resourceError.Some?
    {
      ghost var begun, counted := events, violationCount;
      for i := 0 to |samples|
        invariant Valid() && events == begun + samples[..i] && evaluated == old(evaluated)
        invariant violationCount == counted + i && remainder == old(remainder)
        invariant accounted && old(resourceError).Some? ==> resourceError.Some?
      {
        RecordLazy(samples[i]);
        TakeOneMore(begun, samples, i);
      }
      assert samples[..|samples|] == samples;
      violationCount, remainder := violationCount + (total - |samples|), remainder + (total - |samples|);
    }

    /** The same for column uniqueness, which stops at the first refused reservation. */
    method RecordSampledChecked(samples: seq<Finding>, total: nat, ghost limit: nat) returns (r: Result<()>)
      requires Valid() && resourceError.None? && |samples| == Smaller(total, limit) && maxFindings <= limit
      modifies this
      ensures r.Success? ==> Valid() && resourceError.None? && evaluated == old(evaluated)
      ensures r.Success? ==> events == old(events) + samples && violationCount == old(violationCount) + total
    {
      ghost var begun, counted := events, violationCount;
      for i := 0 to |samples|
        invariant Valid() && resourceError.None? && evaluated == old(evaluated)
        invariant events == begun + samples[..i] && violationCount == counted + i && remainder == old(remainder)
      {
        RecordLazy(samples[i]);
        var checked := CheckResources();
        if checked.Failure? {
          return Failure(checked.error);
        }
        TakeOneMore(begun, samples, i);
      }
      assert samples[..|samples|] == samples;
      violationCount, remainder := violationCount + (total - |samples|), remainder + (total - |samples|);
      r := Success(());
    }

    method PrepareEvaluated(plans: nat)
      requires Valid()
      modifies this`evaluated
      ensures Valid() && evaluated == seq(plans, _ => 0)
    {
      evaluated := seq(plans, _ => 0);
    }

    method RecordEvaluated(plan: nat, values: nat)
      requires Valid()
      modifies this`evaluated
      ensures Valid() && |evaluated| == |old(evaluated)|
      ensures forall k | 0 <= k < |evaluated| ::
              evaluated[k] == if k == plan then SaturatingAdd(old(evaluated)[k], values) else old(evaluated)[k]
    {
      if plan < |evaluated| {
        evaluated := evaluated[plan := SaturatingAdd(evaluated[plan], values)];
      }
    }

    /** Truncation is reported exactly when a violation was counted but not retained. */
    method Finish() returns (outcome: ValidationOutcome)
      requires Valid() && resourceError.None?
      ensures outcome.findings == Take(events, maxFindings) && outcome.violationCount == |events| + remainder
      ensures |outcome.findings| == Smaller(outcome.violationCount, maxFindings)
      ensures outcome.truncated <==> |outcome.findings| < outcome.violationCount
      ensures outcome.evaluated == evaluated
    {
      RetainedCount(findings, violationCount, events, remainder, maxFindings);
      outcome := ValidationOutcome(findings, violationCount, violationCount > |findings|, evaluated);
    }
  }

  // ----- rules that announce samples --------------------------------------------------------------

  function DuplicateFindings(samples: seq<DuplicateSample>, rule: string, column: string,
                             message: string): (r: seq<Finding>)
    ensures |r| == |samples|
    ensures forall i | 0 <= i < |r| ::
              r[i].rule == rule && r[i].column == column && r[i].message == message &&
                r[i].row == Some(samples[i].duplicateRow)
  {
    seq(|samples|, i requires 0 <= i < |samples| => Finding(rule, column, Some(samples[i].duplicateRow), message))
  }

  /** Composite and conditional uniqueness: every occurrence after the first of its key is one violation. */
  method RecordDuplicates(validation: ValidationState, summary: ExactSummary, rule: string, column: string,
                          message: string,
                          ghost contents: multiset<Record>, ghost maxSamples: nat)
    requires validation.Valid() && Summarizes(summary, contents, maxSamples) && validation.maxFindings <= maxSamples
    modifies validation
    ensures validation.Valid() && validation.evaluated == old(validation.evaluated)
    ensures validation.events == old(validation.events) + DuplicateFindings(Take(Duplicates(contents), maxSamples),
            rule, column, message)
    ensures validation.violationCount == old(validation.violationCount) + (|contents| - |Values(contents)|)
    ensures validation.accounted && old(validation.resourceError).Some? ==> validation.resourceError.Some?
  {
    SampleCount(summary, contents, maxSamples);
    validation.RecordSampled(DuplicateFindings(summary.samples, rule, column, message), summary.duplicateCount,
                             maxSamples);
  }

  /** Occurrences beyond the distinct ones, over the first n columns. */
  ghost function ExcessOf(contents: seq<multiset<Record>>, n: nat): int
    requires n <= |contents|
  {
    if n == 0 then 0 else ExcessOf(contents, n - 1) + (|contents[n - 1]| - |Values(contents[n - 1])|)
  }

  /** The sampled duplicates of every column. */
  ghost function SampledDuplicates(contents: seq<multiset<Record>>, maxSamples: nat): (r: seq<seq<DuplicateSample>>)
    ensures |r| == |contents| && forall k | 0 <= k < |r| :: r[k] == Take(Duplicates(contents[k]), maxSamples)
  {
    seq(|contents|, k requires 0 <= k < |contents| => Take(Duplicates(contents[k]), maxSamples))
  }

  ghost function ColumnFindings(samples: seq<seq<DuplicateSample>>, columns: seq<string>): (r: seq<seq<Finding>>)
    requires |samples| == |columns|
    ensures |r| == |columns| && forall k | 0 <= k < |r| ::
              r[k] == DuplicateFindings(samples[k], "unique", columns[k], "Duplicate value detected")
  {
    seq(|columns|, k requires 0 <= k < |columns| == |samples| =>
      DuplicateFindings(samples[k], "unique", columns[k], "Duplicate value detected"))
  }

  /** The findings of the first n columns, one column after another. */
  ghost function UniqueFindings(contents: seq<multiset<Record>>, columns: seq<string>, n: nat,
                                maxSamples: nat): seq<Finding>
    requires n <= |contents| == |columns|
  {
    SampledFindings(SampledDuplicates(contents, maxSamples), columns, n)
  }

  ghost function SampledFindings(samples: seq<seq<DuplicateSample>>, columns: seq<string>, n: nat): seq<Finding>
    requires n <= |samples| == |columns|
  {
    Flatten(ColumnFindings(samples, columns)[..n])
  }

  lemma UniqueStep(contents: seq<multiset<Record>>, columns: seq<string>, n: nat, maxSamples: nat)
    requires n < |contents| == |columns|
    ensures UniqueFindings(contents, columns, n + 1, maxSamples) ==
            UniqueFindings(contents, columns, n, maxSamples) +
              DuplicateFindings(Take(Duplicates(contents[n]), maxSamples), "unique", columns[n],
                                "Duplicate value detected")
  {
    SplitLast(ColumnFindings(SampledDuplicates(contents, maxSamples), columns), n);
  }

  /** Column by column: what a column adds, and where its findings stand. */
  lemma ExcessMeans(contents: seq<multiset<Record>>, n: nat)
    requires n < |contents|
    ensures ExcessOf(contents, 0) == 0
    ensures ExcessOf(contents, n + 1) == ExcessOf(contents, n) + (|contents[n]| - |(set q | q in contents[n] ::
            q.value)|)
  {
  }

  /** The findings of column i follow those of the columns before it, and name the rows of its samples in turn. */
  lemma SampledFindingAt(samples: seq<seq<DuplicateSample>>, columns: seq<string>, n: nat, i: nat, q: nat)
    requires i < n <= |samples| == |columns| && q < |samples[i]|
    ensures var p, all := |SampledFindings(samples, columns, i)| + q, SampledFindings(samples, columns, n);
            && p < |all| && all[p].rule == "unique" && all[p].column == columns[i]
            && all[p].row == Some(samples[i][q].duplicateRow)
    ensures SampledFindings(samples, columns, 0) == []
    ensures |SampledFindings(samples, columns, i + 1)| == |SampledFindings(samples, columns, i)| + |samples[i]|
  {
    FlattenAtPrefix(ColumnFindings(samples, columns), n, i, q);
    SplitLast(ColumnFindings(samples, columns), i);
  }

  /** The duplicates sampled in a column are the first ones, as many as fit. */
  lemma SampleTaken(contents: seq<multiset<Record>>, maxSamples: nat, i: nat, q: nat)
    requires i < |contents|
    ensures |SampledDuplicates(contents, maxSamples)[i]| == Smaller(|Duplicates(contents[i])|, maxSamples)
    ensures q < |Duplicates(contents[i])| && q < maxSamples ==>
            SampledDuplicates(contents, maxSamples)[i][q] == Duplicates(contents[i])[q]
  {
  }

  /** The validation once the first n unique columns are finished, starting from `begun` and `counted`. */
  ghost predicate Announced(validation: ValidationState, begun: seq<Finding>, counted: nat, evaluated: seq<u64>,
                            contents: seq<multiset<Record>>, columns: seq<string>, n: nat, maxSamples: nat)
    requires |contents| == |columns|
    reads validation
  {
    && n <= |columns| && validation.Valid() && validation.resourceError.None? && validation.evaluated == evaluated
    && validation.violationCount == counted + ExcessOf(contents, n)
    && validation.events == begun + UniqueFindings(contents, columns, n, maxSamples)
  }

  method FinishUnique(state: ExactState, columns: seq<string>, i: nat, validation: ValidationState,
                      ghost contents: seq<multiset<Record>>,
                      ghost begun: seq<Finding>, ghost counted: nat, ghost evaluated: seq<u64>, maxSamples: nat)
    returns (r: Result<()>)
    requires i < |columns| == |contents| && validation.maxFindings <= maxSamples
    requires Announced(validation, begun, counted, evaluated, contents, columns, i, maxSamples)
    requires state.Valid() && state.contents == contents[i] && state.maxSamples == maxSamples
    modifies state, validation
    ensures r.Success? ==> Announced(validation, begun, counted, evaluated, contents, columns, i + 1, maxSamples)
  {
    var summary := state.Finish();
    if summary.Failure? {
      return Failure(summary.error);
    }
    SampleCount(summary.value, contents[i], maxSamples);
    var duplicates := DuplicateFindings(summary.value.samples, "unique", columns[i], "Duplicate value detected");
    UniqueStep(contents, columns, i, maxSamples);
    Associative(begun, UniqueFindings(contents, columns, i, maxSamples), duplicates);
    r := validation.RecordSampledChecked(duplicates, summary.value.duplicateCount, maxSamples);
  }

  /** The states of the columns not finished yet. */
  ghost predicate Pending(states: seq<ExactState>, from: nat, contents: seq<multiset<Record>>, maxSamples: nat)
    requires |states| == |contents|
    reads states
  {
    forall k | from <= k < |states| :: Awaiting(states[k], contents[k], maxSamples)
  }

  ghost predicate Awaiting(state: ExactState, contents: multiset<Record>, maxSamples: nat)
    reads state
  {
    state.Valid() && state.contents == contents && state.maxSamples == maxSamples
  }

  /** Finishing one column leaves the later ones as they were. */
  method FinishNext(states: seq<ExactState>, columns: seq<string>, i: nat, validation: ValidationState,
                    ghost contents: seq<multiset<Record>>,
                    ghost begun: seq<Finding>, ghost counted: nat, ghost evaluated: seq<u64>, maxSamples: nat)
    returns (r: Result<()>)
    requires i < |states| == |columns| == |contents| && validation.maxFindings <= maxSamples && DistinctStates(states)
    requires Finishing(states, columns, validation, contents, begun, counted, evaluated, i, maxSamples)
    modifies states[i], validation
    ensures r.Success? ==>
            Finishing(states, columns, validation, contents, begun, counted, evaluated, i + 1, maxSamples)
  {
    assert Awaiting(states[i], contents[i], maxSamples);
    r := FinishUnique(states[i], columns, i, validation, contents, begun, counted, evaluated, maxSamples);
  }

  /** The first i columns are announced and the others wait. */
  ghost predicate Finishing(states: seq<ExactState>, columns: seq<string>, validation: ValidationState,
                            contents: seq<multiset<Record>>,
                            begun: seq<Finding>, counted: nat, evaluated: seq<u64>, i: nat, maxSamples: nat)
    requires |states| == |columns| == |contents|
    reads states, validation
  {
    Pending(states, i, contents, maxSamples) &&
      Announced(validation, begun, counted, evaluated, contents, columns, i, maxSamples)
  }

  ghost predicate DistinctStates(states: seq<ExactState>) {
    forall i, j | 0 <= i < j < |states| :: states[i] != states[j]
  }

  /** `finish_unique_states`: each unique column adds its occurrences beyond the distinct ones. */
  method FinishUniqueStates(states: seq<ExactState>, columns: seq<string>, validation: ValidationState,
                            ghost contents: seq<multiset<Record>>, maxSamples: nat) returns (r: Result<()>)
    requires |states| == |columns| == |contents| && validation.Valid() && validation.resourceError.None?
    requires Pending(states, 0, contents, maxSamples)
    requires DistinctStates(states)
    requires validation.maxFindings <= maxSamples
    modifies states, validation
    ensures r.Success? ==>
              Announced(validation, old(validation.events), old(validation.violationCount), old(validation.evaluated),
                        contents, columns, |columns|, maxSamples)
    ensures r.Success? ==>
              && validation.violationCount == old(validation.violationCount) + ExcessOf(contents, |columns|)
              && validation.events == old(validation.events) +
                 UniqueFindings(contents, columns, |columns|, maxSamples)
              && validation.evaluated == old(validation.evaluated)
  {
    r := FinishAll(states, columns, validation, contents, validation.events, validation.violationCount,
                   validation.evaluated, maxSamples);
  }

  method FinishAll(states: seq<ExactState>, columns: seq<string>, validation: ValidationState,
                   ghost contents: seq<multiset<Record>>,
                   ghost begun: seq<Finding>, ghost counted: nat, ghost evaluated: seq<u64>, maxSamples: nat)
                     returns (r: Result<()>)
    requires |states| == |columns| == |contents| && validation.maxFindings <= maxSamples && DistinctStates(states)
    requires Finishing(states, columns, validation, contents, begun, counted, evaluated, 0, maxSamples)
    modifies states, validation
    ensures r.Success? ==>
            Finishing(states, columns, validation, contents, begun, counted, evaluated, |states|, maxSamples)
  {
    r := Success(());
    for i := 0 to |states|
      invariant r.Success? && Finishing(states, columns, validation, contents, begun, counted, evaluated, i, maxSamples)
    {
      r := FinishNext(states, columns, i, validation, contents, begun, counted, evaluated, maxSamples);
      if r.Failure? {
        return;
      }
    }
  }

  // ----- reports -----------------------------------------------------------------------------------

  datatype Report = Report(valid: bool, violationCount: nat, truncated: bool, findings: seq<Finding>, rows: nat,
                           evaluatedColumns: seq<u64>, evaluatedIndices: seq<nat>)

  /** What every report promises about its counts, under the limit it was produced with. */
  predicate Consistent(report: Report, limit: nat) {
    && (report.valid <==> report.violationCount == 0)
    && |report.findings| == Smaller(report.violationCount, limit)
    && (report.truncated <==> |report.findings| < report.violationCount)
  }

  /** `build_report`. */
  method BuildReport(validation: ValidationState, rows: nat, indices: seq<nat>) returns (report: Report)
    requires validation.Valid() && validation.resourceError.None?
    ensures Consistent(report, validation.maxFindings)
    ensures report.findings == Take(validation.events, validation.maxFindings)
    ensures report.violationCount == |validation.events| + validation.remainder
    ensures report.rows == rows && report.evaluatedColumns == validation.evaluated && report.evaluatedIndices == indices
  {
    var outcome := validation.Finish();
    report := Report(outcome.violationCount == 0, outcome.violationCount, outcome.truncated, outcome.findings, rows,
                     outcome.evaluated, indices);
  }
}
