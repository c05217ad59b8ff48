/**
 Rules that look at rows one after another, and the findings they leave: in row order, each on its own row,
 numbered from the start of the dataset whatever the batches.
 */
module RowFindings {
  import opened Bytes
  import opened Sets
  import opened Findings

  /** What a rule has to say about a row, given the rows before it. */
  type RowRule<!C> = (seq<C>, C) -> seq<Finding>

  /** The findings on `rows`, which follow the rows `before`. */
  ghost function Along<C>(before: seq<C>, rows: seq<C>, rule: RowRule<C>): seq<Finding> {
    if rows == [] then []
    else
      var n := |rows| - 1;
      Along(before, rows[..n], rule) + rule(before + rows[..n], rows[n])
  }

  lemma {:induction false} AlongConcat<C>(before: seq<C>, a: seq<C>, b: seq<C>, rule: RowRule<C>)
    ensures Along(before, a + b, rule) == Along(before, a, rule) + Along(before + a, b, rule)
    decreases |b|
  {
    if b == [] {
      assert a + b == a;
    } else {
      var n := |b| - 1;
      assert (a + b)[..|a + b| - 1] == a + b[..n];
      AlongConcat(before, a, b[..n], rule);
      Associative(before, a, b[..n]);
      Associative(Along(before, a, rule), Along(before + a, b[..n], rule), rule(before + a + b[..n], b[n]));
    }
  }

  lemma AlongStep<C>(base: seq<Finding>, before: seq<C>, rows: seq<C>, i: nat, rule: RowRule<C>)
    requires i < |rows|
    ensures base + Along(before, rows[..i + 1], rule) ==
            base + Along(before, rows[..i], rule) + rule(before + rows[..i], rows[i])
  {
    assert rows[..i + 1][..i] == rows[..i];
    Associative(base, Along(before, rows[..i], rule), rule(before + rows[..i], rows[i]));
  }

  lemma NextBatch<C>(base: seq<Finding>, before: seq<C>, batch: seq<C>, rule: RowRule<C>)
    ensures base + Along([], before + batch, rule) == base + Along([], before, rule) + Along(before, batch, rule)
  {
    AlongConcat([], before, batch, rule);
    assert [] + before == before;
    Associative(base, Along([], before, rule), Along(before, batch, rule));
  }

  /** A rule with at most one finding per row, which names that row. */
  ghost predicate NamesRows<C(!new)>(rule: RowRule<C>) {
    forall before, c :: |rule(before, c)| <= 1 && forall f | f in rule(before, c) :: f.row == Some(|before|)
  }

  /** Findings in the order of their rows, all of them on the first n rows. */
  ghost predicate RowOrder(fs: seq<Finding>, n: nat) {
    && (forall p | 0 <= p < |fs| :: fs[p].row.Some? && fs[p].row.value < n)
    && forall p, q | 0 <= p < q < |fs| :: fs[p].row.value < fs[q].row.value
  }

  lemma RowOrderSnoc(fs: seq<Finding>, last: seq<Finding>, n: nat)
    requires RowOrder(fs, n) && |last| <= 1 && forall f | f in last :: f.row == Some(n)
    ensures RowOrder(fs + last, n + 1)
  {
  }

  /** The findings come in row order, at most one per row, and each is the rule's finding on its row. */
  lemma {:induction false} AlongMeans<C(!new)>(rows: seq<C>, rule: RowRule<C>)
    requires NamesRows(rule)
    ensures RowOrder(Along([], rows, rule), |rows|)
    decreases |rows|
  {
    if rows != [] {
      var n := |rows| - 1;
      AlongMeans(rows[..n], rule);
      assert [] + rows[..n] == rows[..n];
      RowOrderSnoc(Along([], rows[..n], rule), rule(rows[..n], rows[n]), n);
    }
  }

  lemma {:induction false} AlongMember<C(!new)>(rows: seq<C>, rule: RowRule<C>, i: nat, f: Finding)
    requires NamesRows(rule) && i < |rows|
    ensures f in rule(rows[..i], rows[i]) <==> f in Along([], rows, rule) && f.row == Some(i)
    decreases |rows|
  {
    var n := |rows| - 1;
    assert [] + rows[..n] == rows[..n];
    assert f in Along([], rows, rule) <==> f in Along([], rows[..n], rule) || f in rule(rows[..n], rows[n]);
    assert f in rule(rows[..i], rows[i]) ==> f.row == Some(i);
    assert f in rule(rows[..n], rows[n]) ==> f.row == Some(n);
    if i < n {
      assert rows[..n][..i] == rows[..i];
      AlongMember(rows[..n], rule, i, f);
    } else {
      AlongMeans(rows[..n], rule);
    }
  }

  lemma {:induction false} AlongSource<C(!new)>(rows: seq<C>, rule: RowRule<C>, f: Finding) returns (i: nat)
    requires f in Along([], rows, rule)
    ensures i < |rows| && f in rule(rows[..i], rows[i])
    decreases |rows|
  {
    i := |rows| - 1;
    assert [] + rows[..i] == rows[..i];
    if f !in rule(rows[..i], rows[i]) {
      var j := AlongSource(rows[..i], rule, f);
      assert rows[..i][..j] == rows[..j];
      i := j;
    }
  }

  lemma AlongRow<C(!new)>(rows: seq<C>, rule: RowRule<C>, i: nat)
    requires NamesRows(rule) && i < |rows|
    ensures (exists f :: f in Along([], rows, rule) && f.row == Some(i)) <==> rule(rows[..i], rows[i]) != []
  {
    var found := rule(rows[..i], rows[i]);
    forall f ensures f in found <==> f in Along([], rows, rule) && f.row == Some(i) {
      AlongMember(rows, rule, i, f);
    }
    assert found != [] ==> found[0] in found;
  }

  lemma {:induction false} AlongCount<C(!new)>(rows: seq<C>, rule: RowRule<C>, count: seq<C> -> nat)
    requires count([]) == 0 && forall before, c :: |rule(before, c)| == count(before + [c]) - count(before)
    ensures |Along([], rows, rule)| == count(rows)
    decreases |rows|
  {
    if rows != [] {
      var n := |rows| - 1;
      AlongCount(rows[..n], rule, count);
      assert rows == rows[..n] + [rows[n]] && [] + rows[..n] == rows[..n];
    }
  }

  // ----- rules on single rows --------------------------------------------------------------------------

  /** The rows of a dataset that break a rule on single rows. */
  ghost function Broken<C>(rows: seq<C>, breaks: C -> bool): set<nat> { set i: nat | i < |rows| && breaks(rows[i]) }

  lemma BrokenSnoc<C>(rows: seq<C>, row: C, breaks: C -> bool)
    ensures |Broken(rows + [row], breaks)| == |Broken(rows, breaks)| + if breaks(row) then 1 else 0
  {
    assert Broken(rows + [row], breaks) == Broken(rows, breaks) + if breaks(row) then {|rows|} else {};
    AddFresh(Broken(rows, breaks), |rows|, breaks(row));
  }

  lemma {:induction false} BrokenConcat<C>(a: seq<C>, b: seq<C>, breaks: C -> bool)
    ensures |Broken(a + b, breaks)| == |Broken(a, breaks)| + |Broken(b, breaks)|
    decreases |b|
  {
    if b == [] {
      assert a + b == a && Broken(b, breaks) == {};
    } else {
      var n := |b| - 1;
      BrokenConcat(a, b[..n], breaks);
      assert a + b == (a + b[..n]) + [b[n]] && b == b[..n] + [b[n]];
      BrokenSnoc(a + b[..n], b[n], breaks);
      BrokenSnoc(b[..n], b[n], breaks);
    }
  }

  /** How a finding on a row reads. */
  type Naming = nat -> Finding

  /** One finding on every row that breaks a rule on single rows. */
  ghost function MarkRule<C>(breaks: C -> bool, name: Naming): RowRule<C> {
    (before: seq<C>, row: C) => if breaks(row) then [name(|before|)] else []
  }

  lemma {:induction false} BrokenCount<C>(before: seq<C>, rows: seq<C>, breaks: C -> bool, name: Naming)
    ensures |Along(before, rows, MarkRule(breaks, name))| == |Broken(rows, breaks)|
    decreases |rows|
  {
    if rows == [] {
      assert Broken(rows, breaks) == {};
    } else {
      var n := |rows| - 1;
      BrokenCount(before, rows[..n], breaks, name);
      BrokenSnoc(rows[..n], rows[n], breaks);
      assert rows == rows[..n] + [rows[n]];
    }
  }

  lemma MarkNames<C(!new)>(breaks: C -> bool, name: Naming)
    requires forall row: nat :: name(row).row == Some(row)
    ensures NamesRows(MarkRule(breaks, name))
  {
  }

  /** The findings come in row order, one for every broken row. */
  lemma BrokenFindingsAre<C(!new)>(rows: seq<C>, breaks: C -> bool, name: Naming)
    requires forall row: nat :: name(row).row == Some(row)
    ensures var fs := Along([], rows, MarkRule(breaks, name));
            && |fs| == |Broken(rows, breaks)|
            && (forall p | 0 <= p < |fs| :: fs[p].row.Some? && fs[p].row.value < |rows|)
            && (forall p, q | 0 <= p < q < |fs| :: fs[p].row.value < fs[q].row.value)
  {
    AlongMeans(rows, MarkRule(breaks, name));
    BrokenCount([], rows, breaks, name);
  }

  lemma MarkRuleOf<C>(before: seq<C>, n: nat, row: C, breaks: C -> bool, name: Naming)
    requires n == |before|
    ensures MarkRule(breaks, name)(before, row) == if breaks(row) then [name(n)] else []
  {
  }

  /** Every marked row is one violation, reported under its number in the dataset. */
  method ReportMarked<C>(broken: seq<bool>, rowOffset: nat, validation: ValidationState, ghost before: seq<C>,
                         ghost rows: seq<C>, ghost breaks: C -> bool, name: Naming)
    requires validation.Valid() && |broken| == |rows| && rowOffset == |before|
    requires forall row | 0 <= row < |broken| :: broken[row] <==> breaks(rows[row])
    modifies validation
    ensures validation.Valid()
    ensures validation.events == old(validation.events) + Along(before, rows, MarkRule(breaks, name))
    ensures validation.violationCount == old(validation.violationCount) + |Broken(rows, breaks)|
  {
    ghost var begun := validation.events;
    for row := 0 to |broken|
      invariant validation.Valid() && validation.remainder == old(validation.remainder)
      invariant validation.events == begun + Along(before, rows[..row], MarkRule(breaks, name))
    {
      MarkRuleOf(before + rows[..row], rowOffset + row, rows[row], breaks, name);
      AlongStep(begun, before, rows, row, MarkRule(breaks, name));
      if broken[row] {
        validation.RecordLazy(name(rowOffset + row));
      }
    }
    assert rows[..|broken|] == rows;
    BrokenCount(before, rows, breaks, name);
  }
}
