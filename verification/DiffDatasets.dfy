/**
 The keyed diff of two datasets from their rows on: what either path reports is the difference of the
 key tuples, and of the rows behind the common ones.
 */
module DiffDatasets {
  import opened Bytes
  import opened Records
  import opened Sets
  import Canonical
  import opened DiffCodec
  import opened DiffReports
  import opened Diff
  import opened DiffPartitions
  import opened DiffRows

  type Tuple = seq<Canonical.Value>

  /** Rows of one width, whose cells can all be encoded. */
  ghost predicate Regular(rows: seq<Row>, columns: seq<nat>, width: nat) {
    Canonical.InRange(columns, width) && forall r | r in rows :: |r| == width && AllEncodable(r)
  }

  ghost function KeyedRows(rows: seq<Row>, columns: seq<nat>, display: Display,
                           hash: HashFunction): (rs: seq<DiffRecord>)
    requires forall r | r in rows :: Canonical.InRange(columns, |r|) && AllEncodable(r)
    ensures |rs| == |rows|
  {
    seq(|rows|, i requires 0 <= i < |rows| => Keyed(rows[i], columns, display, hash))
  }

  // ----- the specification ---------------------------------------------------------------------------

  ghost function KeyTuples(rows: seq<Row>, columns: seq<nat>): set<Tuple>
    requires forall r | r in rows :: Canonical.InRange(columns, |r|)
  {
    set r | r in rows :: Canonical.Pick(r, columns)
  }

  /** Key tuples both sides have, with different rows behind them. */
  ghost function ChangedTuples(before: seq<Row>, after: seq<Row>, columns: seq<nat>): set<Tuple>
    requires forall r | r in before :: Canonical.InRange(columns, |r|)
    requires forall r | r in after :: Canonical.InRange(columns, |r|)
  {
    set p, r | p in before && r in after && Canonical.Pick(p, columns) == Canonical.Pick(r, columns) && p != r ::
      Canonical.Pick(r, columns)
  }

  ghost function Preimages(rows: seq<Row>): set<seq<byte>>
    requires forall r | r in rows :: AllEncodable(r)
  {
    set r | r in rows :: RowPreimage(KeptRow(r))
  }

  /** What a report of the difference between two datasets counts. */
  ghost predicate CountsDifference(report: DiffReport, before: seq<Row>, after: seq<Row>, columns: seq<nat>)
    requires forall r | r in before :: Canonical.InRange(columns, |r|)
    requires forall r | r in after :: Canonical.InRange(columns, |r|)
  {
    && report.beforeRows == |before| == |KeyTuples(before, columns)|
    && report.afterRows == |after| == |KeyTuples(after, columns)|
    && report.addedCount == |KeyTuples(after, columns) - KeyTuples(before, columns)|
    && report.removedCount == |KeyTuples(before, columns) - KeyTuples(after, columns)|
    && report.changedCount == |ChangedTuples(before, after, columns)|
  }

  // ----- the counts in terms of rows ------------------------------------------------------------------

  ghost function PickOf(columns: seq<nat>): Row -> Tuple {
    r => if Canonical.InRange(columns, |r|) then Canonical.Pick(r, columns) else []
  }

  ghost predicate AllInRange(rows: seq<Row>, columns: seq<nat>) { forall r | r in rows ::
      Canonical.InRange(columns, |r|) }

  lemma SameKey(p: Row, r: Row, columns: seq<nat>)
    requires Canonical.InRange(columns, |p|) && Canonical.InRange(columns, |r|)
    ensures Canonical.Pick(p, columns) == Canonical.Pick(r, columns) <==>
            forall i | 0 <= i < |columns| :: p[columns[i]] == r[columns[i]]
  {
    if forall i | 0 <= i < |columns| :: p[columns[i]] == r[columns[i]] {
      assert Canonical.Pick(p, columns) == Canonical.Pick(r, columns);
    } else {
      var i :| 0 <= i < |columns| && p[columns[i]] != r[columns[i]];
      assert Canonical.Pick(p, columns)[i] != Canonical.Pick(r, columns)[i];
    }
  }

  /** Without repeated keys, as many rows as key tuples have a given property of their key. */
  lemma TuplesAreRows(rows: seq<Row>, columns: seq<nat>, chosen: set<Row>)
    requires AllInRange(rows, columns) && |KeyTuples(rows, columns)| == |rows|
    requires forall r | r in chosen :: r in rows
    ensures |Image(chosen, PickOf(columns))| == |chosen|
  {
    var all := set r | r in rows;
    ElementsFit(rows);
    ImageFits(all, PickOf(columns));
    forall t | t in KeyTuples(rows, columns) ensures t in Image(all, PickOf(columns)) {
      var r :| r in rows && Canonical.Pick(r, columns) == t;
      assert r in all && PickOf(columns)(r) == t;
    }
    Contained(KeyTuples(rows, columns), Image(all, PickOf(columns)));
    forall x, y | x in chosen && y in chosen && PickOf(columns)(x) == PickOf(columns)(y) ensures x == y {
      FullImage(all, PickOf(columns), x, y);
    }
    ImageSize(chosen, PickOf(columns));
  }

  ghost predicate HasKeyIn(r: Row, rows: seq<Row>, columns: seq<nat>)
    requires Canonical.InRange(columns, |r|) && AllInRange(rows, columns)
  {
    Canonical.Pick(r, columns) in KeyTuples(rows, columns)
  }

  lemma HasKeyMeans(r: Row, rows: seq<Row>, columns: seq<nat>)
    requires Canonical.InRange(columns, |r|) && AllInRange(rows, columns)
    ensures HasKeyIn(r, rows, columns) <==>
            exists p :: p in rows && forall i | 0 <= i < |columns| :: p[columns[i]] == r[columns[i]]
  {
    forall p | p in rows
      ensures Canonical.Pick(p, columns) == Canonical.Pick(r, columns) <==>
              forall i | 0 <= i < |columns| :: p[columns[i]] == r[columns[i]]
    {
      SameKey(p, r, columns);
    }
  }

  /** Keys of one side that the other lacks: its rows that agree with no row of the other on the key columns. */
  lemma OneSided(these: seq<Row>, those: seq<Row>, columns: seq<nat>)
    requires AllInRange(these, columns) && AllInRange(those, columns)
    requires |KeyTuples(these, columns)| == |these|
    ensures |KeyTuples(these, columns) - KeyTuples(those, columns)| ==
            |(set r | r in these && !exists p :: p in those && forall i | 0 <= i < |columns| ::
                      p[columns[i]] == r[columns[i]])|
  {
    var chosen := set r | r in these && !exists p :: p in those && forall i | 0 <= i < |columns| ::
                    p[columns[i]] == r[columns[i]];
    forall r | r in these ensures r in chosen <==> !HasKeyIn(r, those, columns) {
      HasKeyMeans(r, those, columns);
    }
    TuplesAreRows(these, columns, chosen);
    ImageIsMissing(these, those, columns, chosen);
  }

  lemma ImageIsMissing(these: seq<Row>, those: seq<Row>, columns: seq<nat>, chosen: set<Row>)
    requires AllInRange(these, columns) && AllInRange(those, columns)
    requires forall r :: r in chosen <==> r in these && !HasKeyIn(r, those, columns)
    ensures Image(chosen, PickOf(columns)) == KeyTuples(these, columns) - KeyTuples(those, columns)
  {
    var missing := KeyTuples(these, columns) - KeyTuples(those, columns);
    forall t | t in missing ensures t in Image(chosen, PickOf(columns)) {
      var r :| r in these && Canonical.Pick(r, columns) == t;
      assert r in chosen && PickOf(columns)(r) == t;
    }
  }

  /** Changed keys: rows of the second side that agree on the key columns with a different row of the first. */
  lemma ChangedMeans(before: seq<Row>, after: seq<Row>, columns: seq<nat>)
    requires AllInRange(before, columns) && AllInRange(after, columns)
    requires |KeyTuples(after, columns)| == |after|
    ensures |ChangedTuples(before, after, columns)| ==
            |(set r | r in after && exists p :: p in before && p != r && forall i | 0 <= i < |columns| ::
                      p[columns[i]] == r[columns[i]])|
  {
    var chosen := set r | r in after && exists p :: p in before && p != r && forall i | 0 <= i < |columns| ::
                    p[columns[i]] == r[columns[i]];
    TuplesAreRows(after, columns, chosen);
    forall t | t in ChangedTuples(before, after, columns) ensures t in Image(chosen, PickOf(columns)) {
      var p, r :| p in before && r in after && Canonical.Pick(p, columns) == Canonical.Pick(r, columns) && p != r &&
                  Canonical.Pick(r, columns) == t;
      SameKey(p, r, columns);
      assert r in chosen && PickOf(columns)(r) == t;
    }
    forall t | t in Image(chosen, PickOf(columns)) ensures t in ChangedTuples(before, after, columns) {
      var r :| r in chosen && PickOf(columns)(r) == t;
      var p :| p in before && p != r && forall i | 0 <= i < |columns| :: p[columns[i]] == r[columns[i]];
      SameKey(p, r, columns);
    }
    assert Image(chosen, PickOf(columns)) == ChangedTuples(before, after, columns);
  }

  /** The counts of a report, row by row: agreement is on the key columns, change anywhere in the row. */
  lemma DifferenceMeans(report: DiffReport, before: seq<Row>, after: seq<Row>, columns: seq<nat>)
    requires AllInRange(before, columns) && AllInRange(after, columns)
    requires CountsDifference(report, before, after, columns)
    ensures report.beforeRows == |before| && report.afterRows == |after|
    ensures report.addedCount ==
            |(set r | r in after && !exists p :: p in before && forall i | 0 <= i < |columns| ::
                      p[columns[i]] == r[columns[i]])|
    ensures report.removedCount ==
            |(set r | r in before && !exists p :: p in after && forall i | 0 <= i < |columns| ::
                      p[columns[i]] == r[columns[i]])|
    ensures report.changedCount ==
            |(set r | r in after && exists p :: p in before && p != r && forall i | 0 <= i < |columns| ::
                      p[columns[i]] == r[columns[i]])|
  {
    OneSided(after, before, columns);
    OneSided(before, after, columns);
    ChangedMeans(before, after, columns);
  }

  // ----- keys stand for tuples -------------------------------------------------------------------------

  ghost function KeyOf(columns: seq<nat>): Tuple -> Key {
    t => if |t| == |columns| && AllEncodable(t) then KeyBytes(t, columns) else []
  }

  lemma TuplesInjective(columns: seq<nat>, ts: set<Tuple>)
    requires forall t | t in ts :: |t| == |columns| && AllEncodable(t)
    ensures forall t, u | t in ts && u in ts && KeyOf(columns)(t) == KeyOf(columns)(u) :: t == u
  {
    forall t, u | t in ts && u in ts && KeyOf(columns)(t) == KeyOf(columns)(u) ensures t == u {
      KeyBytesInjective(t, u, columns);
    }
  }

  lemma TuplesEncodable(rows: seq<Row>, columns: seq<nat>, width: nat)
    requires Regular(rows, columns, width)
    ensures forall t | t in KeyTuples(rows, columns) :: |t| == |columns| && AllEncodable(t)
  {
    forall r | r in rows ensures AllEncodable(Canonical.Pick(r, columns)) {
      PickEncodable(r, columns);
    }
  }

  /** The row a key of the map comes from. */
  lemma {:induction false} MapMember(rows: seq<DiffRecord>, k: Key) returns (i: nat)
    requires k in MapOf(rows)
    ensures i < |rows| && rows[i].key == k
    decreases |rows|
  {
    i := |rows| - 1;
    if rows[i].key != k {
      i := MapMember(rows[..i], k);
    }
  }

  lemma KeysAreTuples(rows: seq<Row>, columns: seq<nat>, width: nat, display: Display, hash: HashFunction,
                      rs: seq<DiffRecord>)
    requires Regular(rows, columns, width) && rs == KeyedRows(rows, columns, display, hash) && Distinct(rs)
    ensures MapOf(rs).Keys == Image(KeyTuples(rows, columns), KeyOf(columns))
  {
    forall k | k in MapOf(rs).Keys ensures k in Image(KeyTuples(rows, columns), KeyOf(columns)) {
      var i := MapMember(rs, k);
      RowTuple(rows, columns, width, display, hash, rs, i);
    }
    forall k | k in Image(KeyTuples(rows, columns), KeyOf(columns)) ensures k in MapOf(rs).Keys {
      var t :| t in KeyTuples(rows, columns) && KeyOf(columns)(t) == k;
      var i :| 0 <= i < |rows| && Canonical.Pick(rows[i], columns) == t;
      RowTuple(rows, columns, width, display, hash, rs, i);
    }
  }

  lemma RowTuple(rows: seq<Row>, columns: seq<nat>, width: nat, display: Display, hash: HashFunction,
                 rs: seq<DiffRecord>, i: nat)
    requires Regular(rows, columns, width) && rs == KeyedRows(rows, columns, display, hash) && Distinct(rs) &&
             i < |rows|
    ensures rs[i].key == KeyOf(columns)(Canonical.Pick(rows[i], columns)) && rs[i].key in MapOf(rs)
    ensures Canonical.Pick(rows[i], columns) in KeyTuples(rows, columns)
  {
    assert rows[i] in rows;
    RowKeyed(rows[i], columns, display, hash);
    RowsAreEntries(rs, i);
  }

  lemma RowKeyed(row: Row, columns: seq<nat>, display: Display, hash: HashFunction)
    requires Canonical.InRange(columns, |row|) && AllEncodable(row)
    ensures Keyed(row, columns, display, hash).key == KeyOf(columns)(Canonical.Pick(row, columns))
  {
    PickEncodable(row, columns);
  }

  /** Distinct keys mean one row per key tuple. */
  lemma TuplesCounted(rows: seq<Row>, columns: seq<nat>, width: nat, display: Display, hash: HashFunction,
                      rs: seq<DiffRecord>)
    requires Regular(rows, columns, width) && rs == KeyedRows(rows, columns, display, hash) && Distinct(rs)
    ensures |KeyTuples(rows, columns)| == |rows| == |MapOf(rs)|
  {
    KeysAreTuples(rows, columns, width, display, hash, rs);
    TuplesEncodable(rows, columns, width);
    TuplesInjective(columns, KeyTuples(rows, columns));
    ImageSize(KeyTuples(rows, columns), KeyOf(columns));
    DistinctCount(rs);
  }

  // ----- changed keys ------------------------------------------------------------------------------------

  /** A pair of rows under one key counts as changed exactly when the rows differ. */
  lemma PairChanged(before: seq<Row>, after: seq<Row>, columns: seq<nat>, width: nat, display: Display,
                    hash: HashFunction,
                    bs: seq<DiffRecord>, cs: seq<DiffRecord>, i: nat, j: nat)
    requires Regular(before, columns, width) && bs == KeyedRows(before, columns, display, hash) && Distinct(bs) &&
             i < |before|
    requires Regular(after, columns, width) && cs == KeyedRows(after, columns, display, hash) && Distinct(cs) &&
             j < |after|
    requires CollisionFree(hash, Preimages(before) + Preimages(after))
    ensures bs[i].key == cs[j].key <==> Canonical.Pick(before[i], columns) == Canonical.Pick(after[j], columns)
    ensures bs[i].key in MapOf(bs) && MapOf(bs)[bs[i].key] == bs[i].entry
    ensures cs[j].key in MapOf(cs) && MapOf(cs)[cs[j].key] == cs[j].entry
    ensures bs[i].entry.hash != cs[j].entry.hash <==> before[i] != after[j]
  {
    assert before[i] in before && after[j] in after;
    assert RowPreimage(KeptRow(before[i])) in Preimages(before) && RowPreimage(KeptRow(after[j])) in Preimages(after);
    KeyedMeans(before[i], after[j], columns, display, hash);
    RowsAreEntries(bs, i);
    RowsAreEntries(cs, j);
  }

  /** Both datasets keyed, each without repeated keys, and no two of their rows colliding. */
  ghost predicate Sides(before: seq<Row>, after: seq<Row>, columns: seq<nat>, width: nat, display: Display,
                        hash: HashFunction,
                        bs: seq<DiffRecord>, cs: seq<DiffRecord>) {
    && Regular(before, columns, width) && bs == KeyedRows(before, columns, display, hash) && Distinct(bs)
    && Regular(after, columns, width) && cs == KeyedRows(after, columns, display, hash) && Distinct(cs)
    && CollisionFree(hash, Preimages(before) + Preimages(after))
  }

  lemma ChangedAreTuples(before: seq<Row>, after: seq<Row>, columns: seq<nat>, width: nat, display: Display,
                         hash: HashFunction,
                         bs: seq<DiffRecord>, cs: seq<DiffRecord>)
    requires Sides(before, after, columns, width, display, hash, bs, cs)
    ensures ChangedIn(MapOf(cs).Keys, MapOf(bs), MapOf(cs)) == Image(ChangedTuples(before, after, columns),
            KeyOf(columns))
  {
    var changed, image := ChangedIn(MapOf(cs).Keys, MapOf(bs), MapOf(cs)),
      Image(ChangedTuples(before, after, columns), KeyOf(columns));
    forall k | k in changed ensures k in image {
      ChangedHasTuple(before, after, columns, width, display, hash, bs, cs, k);
    }
    forall k | k in image ensures k in changed {
      var t :| t in ChangedTuples(before, after, columns) && KeyOf(columns)(t) == k;
      TupleHasChanged(before, after, columns, width, display, hash, bs, cs, t);
    }
  }

  lemma ChangedHasTuple(before: seq<Row>, after: seq<Row>, columns: seq<nat>, width: nat, display: Display,
                        hash: HashFunction,
                        bs: seq<DiffRecord>, cs: seq<DiffRecord>, k: Key)
    requires Sides(before, after, columns, width, display, hash, bs, cs)
    requires k in ChangedIn(MapOf(cs).Keys, MapOf(bs), MapOf(cs))
    ensures k in Image(ChangedTuples(before, after, columns), KeyOf(columns))
  {
    var i := MapMember(bs, k);
    var j := MapMember(cs, k);
    PairChanged(before, after, columns, width, display, hash, bs, cs, i, j);
    RowTuple(after, columns, width, display, hash, cs, j);
    PairInChanged(before, after, columns, i, j);
  }

  lemma PairInChanged(before: seq<Row>, after: seq<Row>, columns: seq<nat>, i: nat, j: nat)
    requires forall r | r in before :: Canonical.InRange(columns, |r|)
    requires forall r | r in after :: Canonical.InRange(columns, |r|)
    requires i < |before| && j < |after| && before[i] != after[j]
    requires Canonical.Pick(before[i], columns) == Canonical.Pick(after[j], columns)
    ensures Canonical.Pick(after[j], columns) in ChangedTuples(before, after, columns)
  {
    assert before[i] in before && after[j] in after;
  }

  lemma TupleHasChanged(before: seq<Row>, after: seq<Row>, columns: seq<nat>, width: nat, display: Display,
                        hash: HashFunction,
                        bs: seq<DiffRecord>, cs: seq<DiffRecord>, t: Tuple)
    requires Sides(before, after, columns, width, display, hash, bs, cs)
    requires t in ChangedTuples(before, after, columns)
    ensures KeyOf(columns)(t) in ChangedIn(MapOf(cs).Keys, MapOf(bs), MapOf(cs))
  {
    var p, r :| p in before && r in after && Canonical.Pick(p, columns) == Canonical.Pick(r, columns) == t && p != r;
    var i :| 0 <= i < |before| && before[i] == p;
    var j :| 0 <= j < |after| && after[j] == r;
    PairChanged(before, after, columns, width, display, hash, bs, cs, i, j);
    RowKeyed(after[j], columns, display, hash);
  }

  /**
   A report of the keyed records counts the difference of the datasets: key tuples only after, only
   before, and on both sides with different rows.
   */
  lemma DiffMeans(report: DiffReport, before: seq<Row>, after: seq<Row>, columns: seq<nat>, width: nat,
                  display: Display, hash: HashFunction,
                  names: seq<string>, limit: nat, bs: seq<DiffRecord>, cs: seq<DiffRecord>)
    requires Sides(before, after, columns, width, display, hash, bs, cs)
    requires IsDiff(report, MapOf(bs), MapOf(cs), names, limit)
    ensures CountsDifference(report, before, after, columns)
  {
    DiffCounts(report, MapOf(bs), MapOf(cs), names, limit);
    TuplesCounted(before, columns, width, display, hash, bs);
    TuplesCounted(after, columns, width, display, hash, cs);
    SideCounts(before, after, columns, width, display, hash, bs, cs);
    ChangedAreTuples(before, after, columns, width, display, hash, bs, cs);
    ChangedCount(before, after, columns, width);
  }

  lemma SideCounts(before: seq<Row>, after: seq<Row>, columns: seq<nat>, width: nat, display: Display,
                   hash: HashFunction,
                   bs: seq<DiffRecord>, cs: seq<DiffRecord>)
    requires Sides(before, after, columns, width, display, hash, bs, cs)
    ensures |MapOf(cs).Keys - MapOf(bs).Keys| == |KeyTuples(after, columns) - KeyTuples(before, columns)|
    ensures |MapOf(bs).Keys - MapOf(cs).Keys| == |KeyTuples(before, columns) - KeyTuples(after, columns)|
  {
    KeysAreTuples(before, columns, width, display, hash, bs);
    KeysAreTuples(after, columns, width, display, hash, cs);
    TuplesEncodable(before, columns, width);
    TuplesEncodable(after, columns, width);
    OneSide(KeyTuples(after, columns), KeyTuples(before, columns), columns);
    OneSide(KeyTuples(before, columns), KeyTuples(after, columns), columns);
  }

  lemma OneSide(x: set<Tuple>, y: set<Tuple>, columns: seq<nat>)
    requires forall t | t in x :: |t| == |columns| && AllEncodable(t)
    requires forall t | t in y :: |t| == |columns| && AllEncodable(t)
    ensures |Image(x, KeyOf(columns)) - Image(y, KeyOf(columns))| == |x - y|
  {
    TuplesInjective(columns, x + y);
    ImageDifference(x, y, KeyOf(columns));
  }

  lemma ChangedCount(before: seq<Row>, after: seq<Row>, columns: seq<nat>, width: nat)
    requires Regular(before, columns, width) && Regular(after, columns, width)
    ensures |Image(ChangedTuples(before, after, columns), KeyOf(columns))| == |ChangedTuples(before, after, columns)|
  {
    TuplesEncodable(after, columns, width);
    assert ChangedTuples(before, after, columns) <= KeyTuples(after, columns);
    TuplesInjective(columns, ChangedTuples(before, after, columns));
    ImageSize(ChangedTuples(before, after, columns), KeyOf(columns));
  }

  // ----- from rows to reports ------------------------------------------------------------------------------

  /** Key and hash every row of a dataset; an error exactly when some cell cannot be encoded. */
  method EncodeRows(rows: seq<Row>, columns: seq<nat>, display: Display, hash: HashFunction)
    returns (r: Result<seq<DiffRecord>>)
    requires forall row | row in rows :: Canonical.InRange(columns, |row|) && AllSized(row)
    ensures r.Success? <==> forall row | row in rows :: AllEncodable(row)
    ensures r.Success? ==> r.value == KeyedRows(rows, columns, display, hash)
  {
    var records: seq<DiffRecord> := [];
    for i := 0 to |rows|
      invariant EncodedBelow(records, rows, i, columns, display, hash)
    {
      var encoded := EncodeNext(records, rows, i, columns, display, hash);
      if encoded.Failure? {
        return Failure(encoded.error);
      }
      records := encoded.value;
    }
    AllEncoded(records, rows, columns, display, hash);
    r := Success(records);
  }

  method EncodeNext(records: seq<DiffRecord>, rows: seq<Row>, i: nat, columns: seq<nat>, display: Display,
                    hash: HashFunction)
    returns (r: Result<seq<DiffRecord>>)
    requires forall row | row in rows :: Canonical.InRange(columns, |row|) && AllSized(row)
    requires i < |rows| && EncodedBelow(records, rows, i, columns, display, hash)
    ensures r.Success? ==> EncodedBelow(r.value, rows, i + 1, columns, display, hash)
    ensures r.Failure? ==> exists row :: row in rows && !AllEncodable(row)
  {
    var row := rows[i];
    assert row in rows;
    var encoded := EncodeRow(row, columns, display, hash);
    if encoded.Failure? {
      return Failure(encoded.error);
    }
    EncodedMore(records, rows, i, columns, display, hash, encoded.value);
    r := Success(records + [encoded.value]);
  }

  lemma EncodedMore(records: seq<DiffRecord>, rows: seq<Row>, i: nat, columns: seq<nat>, display: Display,
                    hash: HashFunction, record: DiffRecord)
    requires forall row | row in rows :: Canonical.InRange(columns, |row|)
    requires i < |rows| && EncodedBelow(records, rows, i, columns, display, hash)
    requires AllEncodable(rows[i]) && record == Keyed(rows[i], columns, display, hash)
    ensures EncodedBelow(records + [record], rows, i + 1, columns, display, hash)
  {
  }

  ghost predicate EncodedBelow(records: seq<DiffRecord>, rows: seq<Row>, n: nat, columns: seq<nat>, display: Display,
                               hash: HashFunction)
    requires forall row | row in rows :: Canonical.InRange(columns, |row|)
  {
    |records| == n <= |rows| && forall k | 0 <= k < n ::
      AllEncodable(rows[k]) && records[k] == Keyed(rows[k], columns, display, hash)
  }

  lemma AllEncoded(records: seq<DiffRecord>, rows: seq<Row>, columns: seq<nat>, display: Display, hash: HashFunction)
    requires forall row | row in rows :: Canonical.InRange(columns, |row|)
    requires EncodedBelow(records, rows, |rows|, columns, display, hash)
    ensures forall row | row in rows :: AllEncodable(row)
    ensures records == KeyedRows(rows, columns, display, hash)
  {
  }

  lemma RecordsTabular(rows: seq<Row>, columns: seq<nat>, display: Display, hash: HashFunction, width: nat, utf8: Utf8,
                       rs: seq<DiffRecord>)
    requires Regular(rows, columns, width) && rs == KeyedRows(rows, columns, display, hash)
    requires forall row | row in rows :: utf8(display(row, columns))
    ensures Tabular(rs, width, utf8)
  {
  }

  /**
   Both paths, from the rows on. Whichever succeeds counts the difference of the two datasets, for any
   partition function; where both do, they agree, and entirely so when display keys are distinct.
   */
  method DiffRowsOfDatasets(before: seq<Row>, after: seq<Row>, columns: seq<nat>, display: Display, names: seq<string>,
                            limit: nat,
                            output: bool, outputLimit: nat, keyCost: Cost<DisplayKey>, rowCost: Cost<ChangedRow>,
                              part: Partitioner,
                            schemaDigest: Digest, hash: HashFunction, maxRecordBytes: nat, utf8: Utf8)
    returns (memory: Result<DiffReport>, disk: Result<DiffReport>)
    requires Assigns(part) && Canonical.InRange(columns, |names|)
    requires forall row | row in before + after :: |row| == |names| && AllSized(row) && utf8(display(row, columns))
    requires (forall row | row in before + after :: AllEncodable(row)) ==>
             CollisionFree(hash, Preimages(before) + Preimages(after))
    ensures memory.Success? || disk.Success? ==> Regular(before, columns, |names|) && Regular(after, columns, |names|)
    ensures memory.Success? ==> CountsDifference(memory.value, before, after, columns)
    ensures disk.Success? ==> CountsDifference(disk.value, before, after, columns)
    ensures memory.Success? && disk.Success? ==> memory.value.(changed := []) == disk.value.(changed := [])
  {
    var bs := EncodeRows(before, columns, display, hash);
    if bs.Failure? {
      return Failure(bs.error), Failure(bs.error);
    }
    var cs := EncodeRows(after, columns, display, hash);
    if cs.Failure? {
      return Failure(cs.error), Failure(cs.error);
    }
    RecordsTabular(before, columns, display, hash, |names|, utf8, bs.value);
    RecordsTabular(after, columns, display, hash, |names|, utf8, cs.value);
    memory, disk := BothPaths(bs.value, cs.value, names, limit, output, outputLimit, keyCost, rowCost, part,
                              schemaDigest, hash,
                              maxRecordBytes, utf8);
    if memory.Success? {
      DiffMeans(memory.value, before, after, columns, |names|, display, hash, names, limit, bs.value, cs.value);
    }
    if disk.Success? {
      DiffMeans(disk.value, before, after, columns, |names|, display, hash, names, limit, bs.value, cs.value);
    }
  }
}
