/**
 Rules that look along the rows: monotonicity, gap detection and mutual exclusion. Their state passes
 from batch to batch, and their counts depend on the sequence of rows alone.
 */
module RowRules {
  import opened Bytes
  import opened Records
  import opened Sequences
  import opened Sets
  import opened Findings
  import opened RowFindings
  import opened Ordering

  /** One cell per row; None is a null. */
  type Cells = seq<Option<Ordered>>

  // ----- neighbours in a column with nulls -----------------------------------------------------------

  /** The last non-null cell before row i. */
  function Previous(cells: Cells, i: nat): Option<Ordered>
    requires i <= |cells|
  {
    if i == 0 then None else if cells[i - 1].Some? then cells[i - 1] else Previous(cells, i - 1)
  }

  /** Rows i and j are neighbours when only nulls lie between them. */
  lemma {:induction false} PreviousIsNeighbour(cells: Cells, i: nat, v: Ordered)
    requires i <= |cells|
    ensures Previous(cells, i) == Some(v) <==>
            exists j :: 0 <= j < i && cells[j] == Some(v) && forall k | j < k < i :: cells[k].None?
    decreases i
  {
    if i > 0 {
      if cells[i - 1].None? {
        PreviousIsNeighbour(cells, i - 1, v);
        if j :| 0 <= j < i - 1 && cells[j] == Some(v) && forall k | j < k < i - 1 :: cells[k].None? {
          assert forall k | j < k < i :: cells[k].None?;
        }
      } else if cells[i - 1] == Some(v) {
        assert i - 1 < i && cells[i - 1] == Some(v);
      }
    }
  }

  /** How a pair of neighbours fares: Some(true) when it breaks the rule, None when it cannot be compared. */
  type PairRule = (Ordered, Ordered) -> Option<bool>

  predicate BreaksAt(cells: Cells, i: nat, bad: PairRule)
    requires i < |cells|
  {
    cells[i].Some? && Previous(cells, i).Some? && bad(Previous(cells, i).value, cells[i].value) == Some(true)
  }

  function Breaks(cells: Cells, bad: PairRule): set<nat> { set i | 0 <= i < |cells| && BreaksAt(cells, i, bad) }

  /** A row breaks the rule when it and the last non-null row before it form a bad pair. */
  lemma BreaksAre(cells: Cells, i: nat, bad: PairRule)
    requires i < |cells|
    ensures i in Breaks(cells, bad) <==>
            exists j :: 0 <= j < i && cells[j].Some? && cells[i].Some? && (forall k | j < k < i :: cells[k].None?) &&
                          bad(cells[j].value, cells[i].value) == Some(true)
  {
    if Previous(cells, i).Some? {
      PreviousIsNeighbour(cells, i, Previous(cells, i).value);
    }
    if j :| 0 <= j < i && cells[j].Some? && cells[i].Some? && forall k | j < k < i :: cells[k].None? {
      PreviousIsNeighbour(cells, i, cells[j].value);
    }
  }

  function Nulls(cells: Cells): set<nat> { set i | 0 <= i < |cells| && cells[i].None? }

  lemma {:induction false} PreviousPrefix(cells: Cells, more: Cells, i: nat)
    requires i <= |cells|
    ensures Previous(cells + more, i) == Previous(cells, i)
  {
    if i > 0 {
      PreviousPrefix(cells, more, i - 1);
    }
  }

  /** One more row breaks the rule exactly when it forms a bad pair with the value before it. */
  predicate NextBreaks(cells: Cells, c: Option<Ordered>, bad: PairRule) {
    c.Some? && Previous(cells, |cells|).Some? && bad(Previous(cells, |cells|).value, c.value) == Some(true)
  }

  lemma BreaksGrow(cells: Cells, c: Option<Ordered>, bad: PairRule)
    ensures Breaks(cells + [c], bad) == Breaks(cells, bad) + if NextBreaks(cells, c, bad) then {|cells|} else {}
  {
    var all := cells + [c];
    PreviousPrefix(cells, [c], |cells|);
    forall i | 0 <= i < |cells| ensures BreaksAt(all, i, bad) <==> BreaksAt(cells, i, bad) {
      PreviousPrefix(cells, [c], i);
    }
  }

  lemma BreaksSnoc(cells: Cells, c: Option<Ordered>, bad: PairRule)
    ensures |Breaks(cells + [c], bad)| == |Breaks(cells, bad)| + if NextBreaks(cells, c, bad) then 1 else 0
    ensures Previous(cells + [c], |cells| + 1) == if c.Some? then c else Previous(cells, |cells|)
    ensures |Nulls(cells + [c])| == |Nulls(cells)| + if c.None? then 1 else 0
  {
    BreaksGrow(cells, c, bad);
    AddFresh(Breaks(cells, bad), |cells|, NextBreaks(cells, c, bad));
    PreviousPrefix(cells, [c], |cells|);
    NullsSnoc(cells, c);
  }

  lemma NullsSnoc(cells: Cells, c: Option<Ordered>)
    ensures |Nulls(cells + [c])| == |Nulls(cells)| + if c.None? then 1 else 0
  {
    assert Nulls(cells + [c]) == Nulls(cells) + if c.None? then {|cells|} else {};
    AddFresh(Nulls(cells), |cells|, c.None?);
  }

  lemma NothingSeen(bad: PairRule)
    ensures Breaks([], bad) == {} && Nulls([]) == {}
  {
  }

  // ----- monotonicity --------------------------------------------------------------------------------

  function OutOfOrder(direction: Direction): PairRule {
    (previous, next) => match Follows(direction, previous, next) case None => None case Some(ok) => Some(!ok)
  }

  /** Neighbours out of order, and nulls where they are rejected. */
  function OrderViolations(cells: Cells, direction: Direction, rejectNulls: bool): nat {
    |Breaks(cells, OutOfOrder(direction))| + if rejectNulls then |Nulls(cells)| else 0
  }

  function NullFinding(name: string, rejectNulls: bool, column: string, row: nat): (r: seq<Finding>)
    ensures |r| <= 1 && forall f | f in r :: f.rule == name && f.column == column && f.row == Some(row)
    ensures r != [] <==> rejectNulls
  {
    if rejectNulls then [Finding(name, column, Some(row), "rule rejects null values")] else []
  }

  function WrongFinding(wrong: bool, column: string, row: nat): (r: seq<Finding>)
    ensures |r| <= 1 && forall f | f in r :: f.rule == "monotonicity" && f.column == column && f.row == Some(row)
    ensures r != [] <==> wrong
  {
    if wrong then [Finding("monotonicity", column, Some(row), "row is out of order")] else []
  }

  /** The finding on a row: a rejected null, or a value out of order with the last one before it. */
  function OrderRule(direction: Direction, rejectNulls: bool, column: string): RowRule<Option<Ordered>> {
    (before: Cells, c: Option<Ordered>) =>
      if c.None? then NullFinding("monotonicity", rejectNulls, column, |before|)
      else WrongFinding(NextBreaks(before, c, OutOfOrder(direction)), column, |before|)
  }

  lemma OrderRuleNames(direction: Direction, rejectNulls: bool, column: string)
    ensures NamesRows(OrderRule(direction, rejectNulls, column))
  {
  }

  lemma OrderRuleFires(cells: Cells, c: Option<Ordered>, direction: Direction, rejectNulls: bool, column: string)
    ensures OrderRule(direction, rejectNulls, column)(cells, c) != [] <==>
            (rejectNulls && c.None?) || NextBreaks(cells, c, OutOfOrder(direction))
    ensures |OrderRule(direction, rejectNulls, column)(cells, c)| ==
            OrderViolations(cells + [c], direction, rejectNulls) - OrderViolations(cells, direction, rejectNulls)
  {
    BreaksSnoc(cells, c, OutOfOrder(direction));
  }

  lemma NextIsBreak(cells: Cells, i: nat, bad: PairRule)
    requires i < |cells|
    ensures NextBreaks(cells[..i], cells[i], bad) <==> i in Breaks(cells, bad)
  {
    assert cells == cells[..i] + cells[i..];
    PreviousPrefix(cells[..i], cells[i..], i);
  }

  /** Row i has a finding exactly when it holds a rejected null or a value out of order. */
  lemma OrderFindingOf(cells: Cells, direction: Direction, rejectNulls: bool, column: string, i: nat)
    requires i < |cells|
    ensures (exists f :: f in Along([], cells, OrderRule(direction, rejectNulls, column)) && f.row == Some(i)) <==>
            (rejectNulls && cells[i].None?) || i in Breaks(cells, OutOfOrder(direction))
  {
    OrderRuleNames(direction, rejectNulls, column);
    AlongRow(cells, OrderRule(direction, rejectNulls, column), i);
    OrderRuleFires(cells[..i], cells[i], direction, rejectNulls, column);
    NextIsBreak(cells, i, OutOfOrder(direction));
  }

  /** The findings of a column come in row order, and there are as many as there are violations. */
  lemma OrderFindingsAre(cells: Cells, direction: Direction, rejectNulls: bool, column: string)
    ensures var fs := Along([], cells, OrderRule(direction, rejectNulls, column));
            && |fs| == OrderViolations(cells, direction, rejectNulls)
            && (forall p | 0 <= p < |fs| :: fs[p].row.Some? && fs[p].row.value < |cells|)
            && (forall p, q | 0 <= p < q < |fs| :: fs[p].row.value < fs[q].row.value)
            && (forall f | f in fs :: f.rule == "monotonicity" && f.column == column)
  {
    OrderRuleNames(direction, rejectNulls, column);
    OrderFindingNames(cells, direction, rejectNulls, column);
    AlongMeans(cells, OrderRule(direction, rejectNulls, column));
    var count := (seen: Cells) => OrderViolations(seen, direction, rejectNulls);
    NothingSeen(OutOfOrder(direction));
    forall before, c
      ensures |OrderRule(direction, rejectNulls, column)(before, c)| == count(before + [c]) - count(before)
    {
      OrderRuleFires(before, c, direction, rejectNulls, column);
    }
    AlongCount(cells, OrderRule(direction, rejectNulls, column), count);
  }

  lemma OrderFindingName(before: Cells, c: Option<Ordered>, direction: Direction, rejectNulls: bool, column: string,
                         f: Finding)
    requires f in OrderRule(direction, rejectNulls, column)(before, c)
    ensures f.rule == "monotonicity" && f.column == column
  {
    if c.None? {
      assert f in NullFinding("monotonicity", rejectNulls, column, |before|);
    } else {
      assert f in WrongFinding(NextBreaks(before, c, OutOfOrder(direction)), column, |before|);
    }
  }

  lemma OrderFindingNames(cells: Cells, direction: Direction, rejectNulls: bool, column: string)
    ensures forall f | f in Along([], cells, OrderRule(direction, rejectNulls, column)) ::
            f.rule == "monotonicity" && f.column == column
  {
    var rule := OrderRule(direction, rejectNulls, column);
    forall f | f in Along([], cells, rule) ensures f.rule == "monotonicity" && f.column == column {
      var i := AlongSource(cells, rule, f);
      OrderFindingName(cells[..i], cells[i], direction, rejectNulls, column, f);
    }
  }

  function Present(values: seq<Ordered>): (cells: Cells)
    ensures |cells| == |values|
  {
    seq(|values|, i requires 0 <= i < |values| => Some(values[i]))
  }

  /** A column without nulls has no violation exactly when every value follows every earlier one. */
  lemma NoViolation(values: seq<Ordered>, direction: Direction)
    requires forall i, j | 0 <= i < j < |values| :: SameKind(values[i], values[j])
    ensures OrderViolations(Present(values), direction, false) == 0 <==>
            forall i, j | 0 <= i < j < |values| :: Follows(direction, values[i], values[j]) == Some(true)
  {
    var cells, bad := Present(values), OutOfOrder(direction);
    forall i | 0 < i < |values|
      ensures i in Breaks(cells, bad) <==> Follows(direction, values[i - 1], values[i]) == Some(false)
      ensures Follows(direction, values[i - 1], values[i]).Some?
    {
      CompareIsTotalOrder(values[i - 1], values[i], values[i]);
    }
    if Breaks(cells, bad) == {} {
      forall k | 0 < k < |values| ensures Follows(direction, values[k - 1], values[k]) == Some(true) {
        assert k !in Breaks(cells, bad);
      }
      forall i, j | 0 <= i < j < |values| ensures Follows(direction, values[i], values[j]) == Some(true) {
        NeighboursOrderAll(direction, values, i, j);
      }
    } else {
      var i :| i in Breaks(cells, bad);
      assert 0 < i && Follows(direction, values[i - 1], values[i]) == Some(false);
    }
  }

  lemma IntegersInDirection(xs: seq<int>, values: seq<Ordered>, direction: Direction)
    requires |values| == |xs| && forall i | 0 <= i < |xs| :: values[i] == IntValue(xs[i])
    ensures direction == Increasing ==>
            (OrderViolations(Present(values), direction, false) == 0 <==>
             forall i, j | 0 <= i < j < |xs| :: xs[i] <= xs[j])
    ensures direction == StrictlyIncreasing ==>
            (OrderViolations(Present(values), direction, false) == 0 <==>
             forall i, j | 0 <= i < j < |xs| :: xs[i] < xs[j])
    ensures direction == Decreasing ==>
            (OrderViolations(Present(values), direction, false) == 0 <==>
             forall i, j | 0 <= i < j < |xs| :: xs[i] >= xs[j])
    ensures direction == StrictlyDecreasing ==>
            (OrderViolations(Present(values), direction, false) == 0 <==>
             forall i, j | 0 <= i < j < |xs| :: xs[i] > xs[j])
  {
    NoViolation(values, direction);
    forall i, j | 0 <= i < j < |xs|
      ensures Follows(direction, values[i], values[j]) == Follows(direction, IntValue(xs[i]), IntValue(xs[j]))
    {
      IntegersFollow(xs[i], xs[j]);
    }
  }

  lemma UnsignedInDirection(xs: seq<u64>, values: seq<Ordered>, direction: Direction)
    requires |values| == |xs| && forall i | 0 <= i < |xs| :: values[i] == UintValue(xs[i])
    ensures direction == Increasing ==>
            (OrderViolations(Present(values), direction, false) == 0 <==>
             forall i, j | 0 <= i < j < |xs| :: xs[i] <= xs[j])
    ensures direction == StrictlyIncreasing ==>
            (OrderViolations(Present(values), direction, false) == 0 <==>
             forall i, j | 0 <= i < j < |xs| :: xs[i] < xs[j])
    ensures direction == Decreasing ==>
            (OrderViolations(Present(values), direction, false) == 0 <==>
             forall i, j | 0 <= i < j < |xs| :: xs[i] >= xs[j])
    ensures direction == StrictlyDecreasing ==>
            (OrderViolations(Present(values), direction, false) == 0 <==>
             forall i, j | 0 <= i < j < |xs| :: xs[i] > xs[j])
  {
    NoViolation(values, direction);
    forall i, j | 0 <= i < j < |xs|
      ensures Follows(direction, values[i], values[j]) == Follows(direction, UintValue(xs[i]), UintValue(xs[j]))
    {
      UnsignedFollow(xs[i], xs[j]);
    }
  }

  /** The same for doubles, by the sign and the magnitude of their patterns. */
  lemma DoublesInDirection(xs: seq<u64>, values: seq<Ordered>, direction: Direction)
    requires |values| == |xs| && forall i | 0 <= i < |xs| :: values[i] == FloatValue(xs[i])
    ensures var sign: int := 0x8000_0000_0000_0000;
            var below := (x: u64, y: u64) => if x >= sign then y < sign || x > y else y < sign && x < y;
            && (direction == Increasing ==>
                (OrderViolations(Present(values), direction, false) == 0 <==>
                 forall i, j | 0 <= i < j < |xs| :: below(xs[i], xs[j]) || xs[i] == xs[j]))
            && (direction == StrictlyIncreasing ==>
                (OrderViolations(Present(values), direction, false) == 0 <==>
                 forall i, j | 0 <= i < j < |xs| :: below(xs[i], xs[j])))
            && (direction == Decreasing ==>
                (OrderViolations(Present(values), direction, false) == 0 <==>
                 forall i, j | 0 <= i < j < |xs| :: !below(xs[i], xs[j])))
            && (direction == StrictlyDecreasing ==>
                (OrderViolations(Present(values), direction, false) == 0 <==>
                 forall i, j | 0 <= i < j < |xs| :: !below(xs[i], xs[j]) && xs[i] != xs[j]))
  {
    var sign: int := 0x8000_0000_0000_0000;
    var below := (x: u64, y: u64) => if x >= sign then y < sign || x > y else y < sign && x < y;
    NoViolation(values, direction);
    forall i, j | 0 <= i < j < |xs|
      ensures Follows(direction, values[i], values[j]) ==
              Some(match direction
                   case Increasing => below(xs[i], xs[j]) || xs[i] == xs[j]
                   case StrictlyIncreasing => below(xs[i], xs[j])
                   case Decreasing => !below(xs[i], xs[j])
                   case StrictlyDecreasing => !below(xs[i], xs[j]) && xs[i] != xs[j])
    {
      FloatsFollow(xs[i], xs[j]);
    }
  }

  /** The same for text: a prefix comes first, otherwise the first byte that differs decides. */
  lemma TextsInDirection(xs: seq<seq<byte>>, values: seq<Ordered>, direction: Direction)
    requires |values| == |xs| && forall i | 0 <= i < |xs| :: values[i] == TextValue(xs[i])
    ensures var below := (x: seq<byte>, y: seq<byte>) =>
                x < y || exists i :: 0 <= i < |x| && i < |y| && x[..i] == y[..i] && x[i] < y[i];
            && (direction == Increasing ==>
                (OrderViolations(Present(values), direction, false) == 0 <==>
                 forall i, j | 0 <= i < j < |xs| :: below(xs[i], xs[j]) || xs[i] == xs[j]))
            && (direction == StrictlyIncreasing ==>
                (OrderViolations(Present(values), direction, false) == 0 <==>
                 forall i, j | 0 <= i < j < |xs| :: below(xs[i], xs[j])))
            && (direction == Decreasing ==>
                (OrderViolations(Present(values), direction, false) == 0 <==>
                 forall i, j | 0 <= i < j < |xs| :: !below(xs[i], xs[j])))
            && (direction == StrictlyDecreasing ==>
                (OrderViolations(Present(values), direction, false) == 0 <==>
                 forall i, j | 0 <= i < j < |xs| :: !below(xs[i], xs[j]) && xs[i] != xs[j]))
  {
    var below := (x: seq<byte>, y: seq<byte>) =>
      x < y || exists i :: 0 <= i < |x| && i < |y| && x[..i] == y[..i] && x[i] < y[i];
    NoViolation(values, direction);
    forall i, j | 0 <= i < j < |xs|
      ensures Follows(direction, values[i], values[j]) ==
              Some(match direction
                   case Increasing => below(xs[i], xs[j]) || xs[i] == xs[j]
                   case StrictlyIncreasing => below(xs[i], xs[j])
                   case Decreasing => !below(xs[i], xs[j])
                   case StrictlyDecreasing => !below(xs[i], xs[j]) && xs[i] != xs[j])
    {
      TextsFollow(xs[i], xs[j]);
    }
  }

  /** With nulls between them: the violations are the rows in the wrong order with the last value before them. */
  lemma IntegerViolations(cells: Cells, direction: Direction, rejectNulls: bool)
    requires forall i | 0 <= i < |cells| :: cells[i].Some? ==> cells[i].value.IntValue?
    ensures var wrong := (x: int, y: int) => match direction
                case Increasing => x > y
                case StrictlyIncreasing => x >= y
                case Decreasing => x < y
                case StrictlyDecreasing => x <= y;
            OrderViolations(cells, direction, rejectNulls) ==
              |(set i: nat | i < |cells| && cells[i].Some? &&
                 exists j :: 0 <= j < i && cells[j].Some? && (forall k | j < k < i :: cells[k].None?) &&
                               wrong(cells[j].value.i, cells[i].value.i))| +
              if rejectNulls then |(set i: nat | i < |cells| && cells[i].None?)| else 0
  {
    var wrong := (x: int, y: int) => match direction
      case Increasing => x > y
      case StrictlyIncreasing => x >= y
      case Decreasing => x < y
      case StrictlyDecreasing => x <= y;
    var rows := set i: nat | i < |cells| && cells[i].Some? &&
      exists j :: 0 <= j < i && cells[j].Some? && (forall k | j < k < i :: cells[k].None?) &&
                    wrong(cells[j].value.i, cells[i].value.i);
    forall i: nat | i < |cells| ensures i in Breaks(cells, OutOfOrder(direction)) <==> i in rows {
      BreaksAre(cells, i, OutOfOrder(direction));
      forall j | 0 <= j < i && cells[j].Some? && cells[i].Some?
        ensures OutOfOrder(direction)(cells[j].value, cells[i].value) ==
                Some(wrong(cells[j].value.i, cells[i].value.i)) {
        IntegersFollow(cells[j].value.i, cells[i].value.i);
      }
    }
    assert Breaks(cells, OutOfOrder(direction)) == rows;
    assert Nulls(cells) == set i: nat | i < |cells| && cells[i].None?;
  }

  class OrderingState {
    const direction: Direction
    const rejectNulls: bool
    const column: string
    var previous: Option<Ordered>
    ghost var seen: Cells

    ghost predicate Valid()
      reads this
    {
      previous == Previous(seen, |seen|)
    }

    constructor (direction: Direction, rejectNulls: bool, column: string)
      ensures Valid() && seen == [] && this.direction == direction && this.rejectNulls == rejectNulls
      ensures this.column == column
    {
      this.direction, this.rejectNulls, this.column := direction, rejectNulls, column;
      previous, seen := None, [];
    }

    /** Rows are numbered from the start of the dataset, so `row` is how many came before. */
    method Row(cell: Option<Ordered>, row: nat, validation: ValidationState) returns (r: Result<()>)
      requires Valid() && validation.Valid() && row == |seen|
      modifies this, validation
      ensures r.Success? ==>
              validation.events == old(validation.events) + OrderRule(direction, rejectNulls, column)(old(seen), cell)
      ensures r.Success? ==> Valid() && seen == old(seen) + [cell] && validation.Valid()
      ensures r.Success? ==>
                validation.violationCount == old(validation.violationCount)
                  + OrderViolations(seen, direction, rejectNulls) - OrderViolations(old(seen), direction, rejectNulls)
      ensures r.Failure? <==> old(previous).Some? && cell.Some? && !SameKind(old(previous).value, cell.value)
    {
      BreaksSnoc(seen, cell, OutOfOrder(direction));
      r := Success(());
      if cell.None? {
        if rejectNulls {
          validation.RecordLazy(Finding("monotonicity", column, Some(row), "rule rejects null values"));
        }
        seen := seen + [cell];
        return;
      }
      if previous.Some? {
        CompareIsTotalOrder(previous.value, cell.value, cell.value);
        var follows := Follows(direction, previous.value, cell.value);
        if follows.None? {
          return Failure(Corrupt);
        }
        if !follows.value {
          validation.RecordLazy(Finding("monotonicity", column, Some(row), "row is out of order"));
        }
      }
      previous := cell;
      seen := seen + [cell];
    }

    method Update(batch: Cells, rowOffset: nat, validation: ValidationState) returns (r: Result<()>)
      requires Valid() && validation.Valid() && rowOffset == |seen|
      modifies this, validation
      ensures r.Success? ==> Valid() && seen == old(seen) + batch && validation.Valid()
      ensures r.Success? ==>
              validation.events == old(validation.events) +
                Along(old(seen), batch, OrderRule(direction, rejectNulls, column))
      ensures r.Success? ==>
                validation.violationCount == old(validation.violationCount)
                  + OrderViolations(seen, direction, rejectNulls) - OrderViolations(old(seen), direction, rejectNulls)
    {
      ghost var begun := seen;
      for row := 0 to |batch|
        invariant Valid() && seen == begun + batch[..row] && validation.Valid()
        invariant validation.violationCount == old(validation.violationCount)
                    + OrderViolations(seen, direction, rejectNulls) - OrderViolations(begun, direction, rejectNulls)
        invariant validation.events == old(validation.events) +
                  Along(begun, batch[..row], OrderRule(direction, rejectNulls, column))
      {
        TakeOneMore(begun, batch, row);
        AlongStep(old(validation.events), begun, batch, row, OrderRule(direction, rejectNulls, column));
        r := Row(batch[row], rowOffset + row, validation);
        if r.Failure? {
          return;
        }
      }
      assert batch[..|batch|] == batch;
      r := Success(());
    }
  }

  /** However the rows are split into batches, the rule counts what the whole column violates. */
  method CheckMonotonicity(batches: seq<Cells>, direction: Direction, rejectNulls: bool, column: string,
                           validation: ValidationState)
    returns (r: Result<()>)
    requires validation.Valid()
    modifies validation
    ensures r.Success? ==> validation.Valid()
    ensures r.Success? ==>
              validation.violationCount == old(validation.violationCount) +
                OrderViolations(Flatten(batches), direction, rejectNulls)
    ensures r.Success? ==>
              validation.events == old(validation.events) +
                Along([], Flatten(batches), OrderRule(direction, rejectNulls, column))
  {
    var state := new OrderingState(direction, rejectNulls, column);
    NothingSeen(OutOfOrder(direction));
    ghost var rule := OrderRule(direction, rejectNulls, column);
    var rows: nat := 0;
    for i := 0 to |batches|
      invariant fresh(state) && state.Valid() && state.direction == direction && state.rejectNulls == rejectNulls
      invariant state.seen == Flatten(batches[..i]) && rows == |state.seen| && validation.Valid()
      invariant state.column == column && validation.events == old(validation.events) + Along([], state.seen, rule)
      invariant validation.violationCount == old(validation.violationCount) +
                OrderViolations(state.seen, direction, rejectNulls)
    {
      FlattenBefore(batches, i);
      NextBatch(old(validation.events), Flatten(batches[..i]), batches[i], rule);
      r := state.Update(batches[i], rows, validation);
      if r.Failure? {
        return;
      }
      rows := rows + |batches[i]|;
    }
    assert batches[..|batches|] == batches;
    r := Success(());
  }

  // ----- gaps ----------------------------------------------------------------------------------------

  function Min(s: set<nat>): (m: nat)
    requires s != {}
    ensures m in s && forall x | x in s :: m <= x
  {
    var x :| x in s;
    MinExists(s, x);
    var m :| m in s && forall y | y in s :: m <= y;
    m
  }

  lemma {:induction false} MinExists(s: set<nat>, x: nat)
    requires x in s
    ensures exists m :: m in s && forall y | y in s :: m <= y
    decreases x
  {
    if y :| y in s && y < x {
      MinExists(s, y);
    } else {
      assert forall y | y in s :: x <= y;
    }
  }

  /** The row a gap finding names: the first step that was too long. */
  function FirstBreak(cells: Cells, bad: PairRule): Option<nat> { if Breaks(cells, bad) == {} then None
      else Some(Min(Breaks(cells, bad))) }

  /** One violation when more steps than allowed are too long, besides rejected nulls. */
  function GapViolations(cells: Cells, exceeds: PairRule, rejectNulls: bool, maxGaps: nat): nat {
    (if |Breaks(cells, exceeds)| > maxGaps then 1 else 0) + if rejectNulls then |Nulls(cells)| else 0
  }

  /** Besides the one finding on its gaps, the rule reports the nulls it rejects. */
  function NullRule(name: string, rejectNulls: bool, column: string): RowRule<Option<Ordered>> {
    (before: Cells, c: Option<Ordered>) =>
      if c.None? then NullFinding(name, rejectNulls, column, |before|) else []
  }

  /** Every rejected null, and nothing else, has a finding on its row. */
  lemma NullFindingOf(cells: Cells, name: string, rejectNulls: bool, column: string, i: nat)
    requires i < |cells|
    ensures (exists f :: f in Along([], cells, NullRule(name, rejectNulls, column)) && f.row == Some(i)) <==>
            rejectNulls && cells[i].None?
  {
    AlongRow(cells, NullRule(name, rejectNulls, column), i);
  }

  class GapState {
    /** Whether the distance between two values exceeds the expected step plus the tolerance. */
    const exceeds: PairRule
    const rejectNulls: bool
    const maxGaps: nat
    const column: string
    var previous: Option<Ordered>
    var gaps: nat
    var firstRow: Option<nat>
    ghost var seen: Cells

    ghost predicate Valid()
      reads this
    {
      && previous == Previous(seen, |seen|)
      && gaps == |Breaks(seen, exceeds)| && firstRow == FirstBreak(seen, exceeds)
    }

    constructor (exceeds: PairRule, rejectNulls: bool, maxGaps: nat, column: string)
      ensures Valid() && seen == [] && this.exceeds == exceeds && this.rejectNulls == rejectNulls &&
              this.maxGaps == maxGaps && this.column == column
    {
      this.exceeds, this.rejectNulls, this.maxGaps, this.column := exceeds, rejectNulls, maxGaps, column;
      previous, gaps, firstRow, seen := None, 0, None, [];
      NothingSeen(exceeds);
    }

    /** Rows are numbered from the start of the dataset, so `row` is how many came before. */
    method Row(cell: Option<Ordered>, row: nat, validation: ValidationState) returns (r: Result<()>)
      requires Valid() && validation.Valid() && row == |seen| && |seen| + 1 < U64
      modifies this, validation
      ensures r.Failure? <==> old(previous).Some? && cell.Some? && exceeds(old(previous).value, cell.value).None?
      ensures r.Success? ==>
              validation.events == old(validation.events) +
                NullRule("gap_detection", rejectNulls, column)(old(seen), cell)
      ensures r.Success? ==> Valid() && seen == old(seen) + [cell] && validation.Valid()
      ensures r.Success? ==>
                validation.violationCount == old(validation.violationCount) +
                  if rejectNulls then |Nulls(seen)| - |Nulls(old(seen))| else 0
    {
      GapStep(seen, cell, exceeds);
      r := Success(());
      if cell.None? {
        if rejectNulls {
          validation.RecordLazy(Finding("gap_detection", column, Some(row), "rule rejects null values"));
        }
      } else {
        var step := if previous.Some? then exceeds(previous.value, cell.value) else Some(false);
        if step.None? {
          return Failure(Corrupt);
        }
        gaps, firstRow := if step.value then SaturatingAdd(gaps, 1) else gaps, if step.value &&
          firstRow.None? then Some(row) else firstRow;
        previous := cell;
      }
      seen := seen + [cell];
    }

    method Update(batch: Cells, rowOffset: nat, validation: ValidationState) returns (r: Result<()>)
      requires Valid() && validation.Valid() && rowOffset == |seen| && |seen| + |batch| < U64
      modifies this, validation
      ensures r.Success? ==>
              validation.events == old(validation.events) +
                Along(old(seen), batch, NullRule("gap_detection", rejectNulls, column))
      ensures r.Success? ==> Valid() && seen == old(seen) + batch && validation.Valid()
      ensures r.Success? ==>
                validation.violationCount == old(validation.violationCount) +
                  if rejectNulls then |Nulls(seen)| - |Nulls(old(seen))| else 0
    {
      ghost var begun := seen;
      for row := 0 to |batch|
        invariant Valid() && seen == begun + batch[..row] && validation.Valid()
        invariant validation.violationCount == old(validation.violationCount) +
                  if rejectNulls then |Nulls(seen)| - |Nulls(begun)| else 0
        invariant validation.events == old(validation.events) +
                  Along(begun, batch[..row], NullRule("gap_detection", rejectNulls, column))
      {
        TakeOneMore(begun, batch, row);
        AlongStep(old(validation.events), begun, batch, row, NullRule("gap_detection", rejectNulls, column));
        r := Row(batch[row], rowOffset + row, validation);
        if r.Failure? {
          return;
        }
      }
      assert batch[..|batch|] == batch;
      r := Success(());
    }

    /** The single finding of the rule, at the row of its first gap. */
    method Finish(validation: ValidationState)
      requires Valid() && validation.Valid()
      modifies validation
      ensures validation.Valid()
      ensures validation.violationCount == old(validation.violationCount) + if |Breaks(seen, exceeds)| > maxGaps then 1
              else 0
      ensures validation.events == old(validation.events) +
                if |Breaks(seen, exceeds)| > maxGaps then
                  [Finding("gap_detection", column, FirstBreak(seen, exceeds), "too many long steps")]
                else []
    {
      if gaps > maxGaps {
        validation.RecordLazy(Finding("gap_detection", column, firstRow, "too many long steps"));
      }
    }
  }

  lemma GapStep(cells: Cells, c: Option<Ordered>, bad: PairRule)
    ensures |Breaks(cells + [c], bad)| == |Breaks(cells, bad)| + (if NextBreaks(cells, c, bad) then 1
            else 0) <= |cells| + 1
    ensures FirstBreak(cells + [c], bad) ==
            if FirstBreak(cells, bad).Some? then FirstBreak(cells, bad)
              else if NextBreaks(cells, c, bad) then Some(|cells|) else None
    ensures Previous(cells + [c], |cells| + 1) == if c.Some? then c else Previous(cells, |cells|)
    ensures |Nulls(cells + [c])| == |Nulls(cells)| + if c.None? then 1 else 0
  {
    BreaksSnoc(cells, c, bad);
    FirstBreakSnoc(cells, c, bad);
    GapsFit(cells + [c], bad);
  }

  lemma FirstBreakSnoc(cells: Cells, c: Option<Ordered>, bad: PairRule)
    ensures FirstBreak(cells + [c], bad) ==
            if FirstBreak(cells, bad).Some? then FirstBreak(cells, bad)
              else if NextBreaks(cells, c, bad) then Some(|cells|) else None
  {
    BreaksGrow(cells, c, bad);
    var before, after := Breaks(cells, bad), Breaks(cells + [c], bad);
    if before != {} {
      assert Min(before) in after;
      assert Min(after) in before;
    }
  }

  /** There are no more long steps than rows, so the saturating counter never saturates. */
  lemma GapsFit(cells: Cells, bad: PairRule)
    ensures |Breaks(cells, bad)| <= |cells|
  {
    SubsetOfRange(Breaks(cells, bad), |cells|);
  }

  lemma {:induction false} SubsetOfRange(s: set<nat>, n: nat)
    requires forall x | x in s :: x < n
    ensures |s| <= n
    decreases n
  {
    if n > 0 {
      SubsetOfRange(s - {n - 1}, n - 1);
      if n - 1 in s {
        assert |s - {n - 1}| == |s| - 1;
      } else {
        assert s - {n - 1} == s;
      }
    } else {
      assert s == {};
    }
  }

  /** However the rows are split, the rule counts long steps between neighbours of the whole column. */
  method CheckGaps(batches: seq<Cells>, exceeds: PairRule, rejectNulls: bool, maxGaps: nat, column: string,
                   validation: ValidationState)
    returns (r: Result<()>)
    requires validation.Valid() && |Flatten(batches)| < U64
    modifies validation
    ensures r.Success? ==> validation.Valid()
    ensures r.Success? ==>
              validation.violationCount == old(validation.violationCount) +
                GapViolations(Flatten(batches), exceeds, rejectNulls, maxGaps)
    ensures r.Success? ==>
              validation.events == old(validation.events) +
                Along([], Flatten(batches), NullRule("gap_detection", rejectNulls, column)) +
                if |Breaks(Flatten(batches), exceeds)| > maxGaps then
                  [Finding("gap_detection", column, FirstBreak(Flatten(batches), exceeds), "too many long steps")]
                else []
  {
    var state := new GapState(exceeds, rejectNulls, maxGaps, column);
    r := ScanGaps(state, batches, validation);
    if r.Success? {
      state.Finish(validation);
    }
  }

  method ScanGaps(state: GapState, batches: seq<Cells>, validation: ValidationState) returns (r: Result<()>)
    requires state.Valid() && state.seen == [] && validation.Valid() && |Flatten(batches)| < U64
    modifies state, validation
    ensures r.Success? ==> state.Valid() && state.seen == Flatten(batches) && validation.Valid()
    ensures r.Success? ==>
              validation.violationCount == old(validation.violationCount) +
                if state.rejectNulls then |Nulls(Flatten(batches))| else 0
    ensures r.Success? ==>
              validation.events == old(validation.events) +
                Along([], Flatten(batches), NullRule("gap_detection", state.rejectNulls, state.column))
  {
    NothingSeen(state.exceeds);
    ghost var rule, begun := NullRule("gap_detection", state.rejectNulls, state.column), validation.events;
    var rows: nat := 0;
    for i := 0 to |batches|
      invariant state.Valid() && state.seen == Flatten(batches[..i]) && rows == |state.seen| && validation.Valid()
      invariant validation.violationCount == old(validation.violationCount) +
                if state.rejectNulls then |Nulls(state.seen)| else 0
      invariant validation.events == begun + Along([], state.seen, rule)
    {
      FlattenBefore(batches, i);
      NextBatch(begun, Flatten(batches[..i]), batches[i], rule);
      r := state.Update(batches[i], rows, validation);
      if r.Failure? {
        return;
      }
      rows := rows + |batches[i]|;
    }
    assert batches[..|batches|] == batches;
    r := Success(());
  }

  // ----- mutual exclusion ----------------------------------------------------------------------------

  type Bitmap = seq<bool>

  function Or(a: Bitmap, b: Bitmap): (r: Bitmap)
    requires |a| == |b|
    ensures |r| == |a| && forall i | 0 <= i < |a| :: r[i] == (a[i] || b[i])
  {
    seq(|a|, i requires 0 <= i < |a| => a[i] || b[i])
  }

  function And(a: Bitmap, b: Bitmap): (r: Bitmap)
    requires |a| == |b|
    ensures |r| == |a| && forall i | 0 <= i < |a| :: r[i] == (a[i] && b[i])
  {
    seq(|a|, i requires 0 <= i < |a| => a[i] && b[i])
  }

  function Not(a: Bitmap): (r: Bitmap)
    ensures |r| == |a| && forall i | 0 <= i < |a| :: r[i] == !a[i]
  {
    seq(|a|, i requires 0 <= i < |a| => !a[i])
  }

  /** A batch as its columns' validity: a column without nulls carries no bitmap at all. */
  datatype Presence = Presence(rows: nat, validity: seq<Option<Bitmap>>)

  predicate WellFormed(b: Presence) { forall c | 0 <= c < |b.validity| :: b.validity[c].Some? ==>
                                     |b.validity[c].value| == b.rows }

  predicate Filled(b: Presence, column: nat, row: nat)
    requires WellFormed(b) && column < |b.validity| && row < b.rows
  {
    b.validity[column].Some? ==> b.validity[column].value[row]
  }

  datatype Mode = AtMostOne | ExactlyOne

  predicate Fits(b: Presence, columns: seq<nat>) { WellFormed(b) && forall k | 0 <= k < |columns| ::
                                                  columns[k] < |b.validity| }

  /** The rule's columns a row fills, among the first n. */
  function FilledColumns(b: Presence, columns: seq<nat>, n: nat, row: nat): set<nat>
    requires Fits(b, columns) && row < b.rows && n <= |columns|
  {
    set k | 0 <= k < n && Filled(b, columns[k], row)
  }

  predicate BreaksRule(b: Presence, columns: seq<nat>, mode: Mode, row: nat)
    requires Fits(b, columns) && row < b.rows
  {
    var filled := |FilledColumns(b, columns, |columns|, row)|;
    if mode == AtMostOne then filled >= 2 else filled != 1
  }

  lemma FilledStep(b: Presence, columns: seq<nat>, n: nat, row: nat)
    requires Fits(b, columns) && row < b.rows && n < |columns|
    ensures |FilledColumns(b, columns, n + 1, row)| == |FilledColumns(b, columns, n, row)| +
            if Filled(b, columns[n], row) then 1 else 0
  {
    assert FilledColumns(b, columns, n + 1, row) == FilledColumns(b, columns, n, row) +
      if Filled(b, columns[n], row) then {n} else {};
  }

  /** The bitmap algebra marks exactly the rows whose number of filled columns breaks the rule. */
  method Violations(b: Presence, columns: seq<nat>, mode: Mode) returns (broken: Bitmap)
    requires Fits(b, columns)
    ensures |broken| == b.rows
    ensures forall row | 0 <= row < b.rows :: broken[row] <==> BreaksRule(b, columns, mode, row)
  {
    var once: Bitmap, twice: Bitmap := seq(b.rows, _ => false), seq(b.rows, _ => false);
    for k := 0 to |columns|
      invariant |once| == |twice| == b.rows
      invariant forall row | 0 <= row < b.rows :: once[row] <==> |FilledColumns(b, columns, k, row)| >= 1
      invariant forall row | 0 <= row < b.rows :: twice[row] <==> |FilledColumns(b, columns, k, row)| >= 2
    {
      forall row | 0 <= row < b.rows
        ensures |FilledColumns(b, columns, k + 1, row)| == |FilledColumns(b, columns, k, row)| +
                if Filled(b, columns[k], row) then 1 else 0
      {
        FilledStep(b, columns, k, row);
      }
      var validity := b.validity[columns[k]];
      var present: Bitmap := if validity.Some? then validity.value else seq(b.rows, _ => true);
      twice := Or(twice, And(once, present));
      once := Or(once, present);
    }
    broken := if mode == AtMostOne then twice else Or(twice, Not(once));
  }

  // The rows of several batches, as the flags the rule reads.

  function RowFlags(b: Presence, columns: seq<nat>, row: nat): (r: seq<bool>)
    requires Fits(b, columns) && row < b.rows
    ensures |r| == |columns|
    ensures forall k | 0 <= k < |r| :: var bits := b.validity[columns[k]]; r[k] <==> bits.Some? ==> bits.value[row]
  {
    seq(|columns|, k requires 0 <= k < |columns| => Filled(b, columns[k], row))
  }

  function BatchFlags(b: Presence, columns: seq<nat>): (r: seq<seq<bool>>)
    requires Fits(b, columns)
    ensures |r| == b.rows && forall row | 0 <= row < |r| :: r[row] == RowFlags(b, columns, row)
  {
    seq(b.rows, row requires 0 <= row < b.rows => RowFlags(b, columns, row))
  }

  function AllFlags(batches: seq<Presence>, columns: seq<nat>): seq<seq<bool>>
    requires forall i | 0 <= i < |batches| :: Fits(batches[i], columns)
  {
    if batches == [] then []
      else AllFlags(batches[..|batches| - 1], columns) + BatchFlags(batches[|batches| - 1], columns)
  }

  predicate FlagsBreak(flags: seq<bool>, mode: Mode) {
    var filled := |set k | 0 <= k < |flags| && flags[k]|;
    if mode == AtMostOne then filled >= 2 else filled != 1
  }

  /** A row breaks the rule when two columns are filled, or when not exactly one is. */
  lemma FlagsBreakMeans(flags: seq<bool>)
    ensures FlagsBreak(flags, AtMostOne) <==> exists j, k :: 0 <= j < k < |flags| && flags[j] && flags[k]
    ensures FlagsBreak(flags, ExactlyOne) <==>
            !exists j :: 0 <= j < |flags| && flags[j] && forall k | 0 <= k < |flags| && k != j :: !flags[k]
  {
    var filled := set k | 0 <= k < |flags| && flags[k];
    if j, k :| 0 <= j < k < |flags| && flags[j] && flags[k] {
      Contained({j, k}, filled);
    } else if j :| 0 <= j < |flags| && flags[j] {
      assert filled == {j};
    } else {
      assert filled == {};
    }
  }

  function Breaker(mode: Mode): seq<bool> -> bool { flags => FlagsBreak(flags, mode) }

  lemma RowBroken(b: Presence, columns: seq<nat>, mode: Mode, row: nat)
    requires Fits(b, columns) && row < b.rows
    ensures BreaksRule(b, columns, mode, row) <==> FlagsBreak(BatchFlags(b, columns)[row], mode)
  {
    var flags := RowFlags(b, columns, row);
    assert (set k | 0 <= k < |flags| && flags[k]) == FilledColumns(b, columns, |columns|, row);
  }

  lemma MarkedRows(b: Presence, columns: seq<nat>, mode: Mode, broken: Bitmap)
    requires Fits(b, columns) && |broken| == b.rows
    requires forall row | 0 <= row < b.rows :: broken[row] <==> BreaksRule(b, columns, mode, row)
    ensures forall row | 0 <= row < b.rows :: broken[row] <==> Breaker(mode)(BatchFlags(b, columns)[row])
  {
    forall row | 0 <= row < b.rows ensures broken[row] <==> Breaker(mode)(BatchFlags(b, columns)[row]) {
      RowBroken(b, columns, mode, row);
    }
  }

  function ExclusiveFinding(row: nat): Finding {
    Finding("mutually_exclusive", "$dataset", Some(row), "row breaks the rule")
  }

  ghost function ExclusiveRule(mode: Mode): RowRule<seq<bool>> { MarkRule(Breaker(mode), ExclusiveFinding) }

  /** The findings are those of the rule, on the dataset, in row order, one for every broken row. */
  lemma ExclusiveFindingsAre(rows: seq<seq<bool>>, mode: Mode)
    ensures var fs := Along([], rows, ExclusiveRule(mode));
            && |fs| == |Broken(rows, Breaker(mode))|
            && (forall p | 0 <= p < |fs| :: fs[p].row.Some? && fs[p].row.value < |rows|)
            && (forall p, q | 0 <= p < q < |fs| :: fs[p].row.value < fs[q].row.value)
            && (forall f | f in fs :: f.rule == "mutually_exclusive" && f.column == "$dataset")
  {
    BrokenFindingsAre(rows, Breaker(mode), ExclusiveFinding);
    forall f | f in Along([], rows, ExclusiveRule(mode)) ensures exists row: nat :: f == ExclusiveFinding(row) {
      var i := AlongSource(rows, ExclusiveRule(mode), f);
    }
  }

  /** Row i has one exactly when two of the columns are filled in it, or when not exactly one is. */
  lemma ExclusiveFindingOf(rows: seq<seq<bool>>, mode: Mode, i: nat)
    requires i < |rows|
    ensures (exists f :: f in Along([], rows, ExclusiveRule(mode)) && f.row == Some(i)) <==>
            if mode == AtMostOne then exists j, k :: 0 <= j < k < |rows[i]| && rows[i][j] && rows[i][k]
            else !exists j :: 0 <= j < |rows[i]| && rows[i][j] && forall k | 0 <= k < |rows[i]| && k != j :: !rows[i][k]
  {
    MarkNames(Breaker(mode), ExclusiveFinding);
    AlongRow(rows, ExclusiveRule(mode), i);
    FlagsBreakMeans(rows[i]);
  }

  /** Every broken row of a batch is one violation, whatever the other rows or batches hold. */
  method CheckExclusive(b: Presence, columns: seq<nat>, mode: Mode, rowOffset: nat, validation: ValidationState,
                        ghost before: seq<seq<bool>>)
    requires validation.Valid() && Fits(b, columns) && rowOffset == |before|
    modifies validation
    ensures validation.Valid()
    ensures validation.violationCount == old(validation.violationCount) +
              |Broken(BatchFlags(b, columns), Breaker(mode))|
    ensures validation.events == old(validation.events) +
              Along(before, BatchFlags(b, columns), ExclusiveRule(mode))
  {
    var broken := Violations(b, columns, mode);
    MarkedRows(b, columns, mode, broken);
    ReportMarked(broken, rowOffset, validation, before, BatchFlags(b, columns), Breaker(mode), ExclusiveFinding);
  }

  /** However the rows are split, the rule reports the broken rows of the whole dataset. */
  method CheckExclusiveBatches(batches: seq<Presence>, columns: seq<nat>, mode: Mode, validation: ValidationState)
    requires validation.Valid() && forall i | 0 <= i < |batches| :: Fits(batches[i], columns)
    modifies validation
    ensures validation.Valid()
    ensures validation.violationCount == old(validation.violationCount) +
              |Broken(AllFlags(batches, columns), Breaker(mode))|
    ensures validation.events == old(validation.events) +
              Along([], AllFlags(batches, columns), ExclusiveRule(mode))
  {
    var rows: nat := 0;
    assert Broken(AllFlags(batches[..0], columns), Breaker(mode)) == {};
    for i := 0 to |batches|
      invariant validation.Valid() && rows == |AllFlags(batches[..i], columns)|
      invariant validation.violationCount == old(validation.violationCount) +
                |Broken(AllFlags(batches[..i], columns), Breaker(mode))|
      invariant validation.events == old(validation.events) +
                Along([], AllFlags(batches[..i], columns), ExclusiveRule(mode))
    {
      assert batches[..i + 1][..i] == batches[..i];
      BrokenConcat(AllFlags(batches[..i], columns), BatchFlags(batches[i], columns), Breaker(mode));
      NextBatch(old(validation.events), AllFlags(batches[..i], columns), BatchFlags(batches[i], columns),
                ExclusiveRule(mode));
      CheckExclusive(batches[i], columns, mode, rows, validation, AllFlags(batches[..i], columns));
      rows := rows + batches[i].rows;
    }
    assert batches[..|batches|] == batches;
  }
}
