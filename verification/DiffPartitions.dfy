/**
 The keyed diff over hash partitions on disk, and its agreement with the diff in memory for any way of
 assigning keys to partitions.
 */
module DiffPartitions {
  import opened Bytes
  import opened Sequences
  import opened Sorting
  import opened Records
  import opened ExactState
  import opened DiffCodec
  import opened DiffFiles
  import opened DiffReports
  import opened Diff

  const PARTITIONS: nat := 64

  type Partitioner = Key -> nat

  ghost predicate Assigns(part: Partitioner) { forall k :: part(k) < PARTITIONS }

  /** The rows of one partition, in order. */
  ghost function InPartition(rows: seq<DiffRecord>, part: Partitioner, p: nat): seq<DiffRecord> {
    if rows == [] then []
    else
      var init, last := rows[..|rows| - 1], rows[|rows| - 1];
      if part(last.key) == p then InPartition(init, part, p) + [last] else InPartition(init, part, p)
  }

  lemma {:induction false} PartitionMap(rows: seq<DiffRecord>, part: Partitioner, p: nat)
    ensures forall k :: k in MapOf(InPartition(rows, part, p)) <==> k in MapOf(rows) && part(k) == p
    ensures forall k | k in MapOf(InPartition(rows, part, p)) :: MapOf(InPartition(rows, part, p))[k] == MapOf(rows)[k]
    decreases |rows|
  {
    if rows != [] {
      var init, last := rows[..|rows| - 1], rows[|rows| - 1];
      PartitionMap(init, part, p);
      if part(last.key) == p {
        var kept := InPartition(init, part, p);
        assert (kept + [last])[..|kept|] == kept;
      }
    }
  }

  lemma {:induction false} PartitionMembers(rows: seq<DiffRecord>, part: Partitioner, p: nat)
    ensures forall r | r in InPartition(rows, part, p) :: r in rows
    decreases |rows|
  {
    if rows != [] {
      PartitionMembers(rows[..|rows| - 1], part, p);
      assert rows == rows[..|rows| - 1] + [rows[|rows| - 1]];
    }
  }

  /** Keys repeat only within a partition. */
  lemma {:induction false} DistinctParts(rows: seq<DiffRecord>, part: Partitioner)
    requires Assigns(part) && forall p | 0 <= p < PARTITIONS :: Distinct(InPartition(rows, part, p))
    ensures Distinct(rows)
    decreases |rows|
  {
    if rows != [] {
      var init, last := rows[..|rows| - 1], rows[|rows| - 1];
      forall p | 0 <= p < PARTITIONS ensures Distinct(InPartition(init, part, p)) {
        LastDistinct(rows, part, p);
      }
      DistinctParts(init, part);
      LastDistinct(rows, part, part(last.key));
      PartitionMap(init, part, part(last.key));
    }
  }

  lemma LastDistinct(rows: seq<DiffRecord>, part: Partitioner, p: nat)
    requires rows != [] && Distinct(InPartition(rows, part, p))
    ensures var init, last := rows[..|rows| - 1], rows[|rows| - 1];
            && Distinct(InPartition(init, part, p))
            && (part(last.key) == p ==> last.key !in MapOf(InPartition(init, part, p)))
  {
    var kept := InPartition(rows[..|rows| - 1], part, p);
    assert (kept + [rows[|rows| - 1]])[..|kept|] == kept;
  }

  // ----- writing -------------------------------------------------------------------------------------

  ghost predicate Writable(rows: seq<DiffRecord>, maxRecordBytes: nat) {
    forall r | r in rows :: |RecordBytes(r)| <= maxRecordBytes && Encodable(r)
  }

  /** One file per partition, holding its rows. */
  ghost predicate Stored(files: seq<seq<byte>>, rows: seq<DiffRecord>, part: Partitioner, schemaDigest: Digest,
                         hash: HashFunction) {
    FilesBelow(files, rows, PARTITIONS, part, schemaDigest, hash)
  }

  /** Each writer holds the rows of its partition among those written so far. */
  ghost predicate Writing(writers: seq<PartitionWriter>, rows: seq<DiffRecord>, n: nat, part: Partitioner,
                          schemaDigest: Digest, maxRecordBytes: nat)
    reads writers
  {
    && |writers| == PARTITIONS && n <= |rows| && Writable(rows[..n], maxRecordBytes)
    && (forall p, q | 0 <= p < q < PARTITIONS :: writers[p] != writers[q])
    && forall p | 0 <= p < PARTITIONS ::
         writers[p].Valid() && writers[p].schemaDigest == schemaDigest &&
           writers[p].written == InPartition(rows[..n], part, p)
  }

  method CreateWriters(schemaDigest: Digest) returns (writers: seq<PartitionWriter>)
    ensures |writers| == PARTITIONS && fresh(set w | w in writers)
    ensures forall p, q | 0 <= p < q < PARTITIONS :: writers[p] != writers[q]
    ensures forall p | 0 <= p < PARTITIONS ::
            writers[p].Valid() && writers[p].schemaDigest == schemaDigest && writers[p].written == []
  {
    writers := [];
    for p := 0 to PARTITIONS
      invariant |writers| == p && fresh(set w | w in writers)
      invariant forall i, j | 0 <= i < j < p :: writers[i] != writers[j]
      invariant forall i | 0 <= i < p ::
                writers[i].Valid() && writers[i].schemaDigest == schemaDigest && writers[i].written == []
    {
      var writer := new PartitionWriter(schemaDigest);
      writers := writers + [writer];
    }
  }

  method WriteRow(writers: seq<PartitionWriter>, rows: seq<DiffRecord>, n: nat, part: Partitioner,
                  ghost schemaDigest: Digest, maxRecordBytes: nat)
    returns (r: Result<()>)
    requires n < |rows| && part(rows[n].key) < PARTITIONS &&
             Writing(writers, rows, n, part, schemaDigest, maxRecordBytes)
    modifies writers
    ensures r.Success? ==> Writing(writers, rows, n + 1, part, schemaDigest, maxRecordBytes)
  {
    var p := part(rows[n].key);
    ghost var covered, refused;
    r, covered, refused := writers[p].WriteRecord(rows[n], maxRecordBytes);
    SplitLast(rows, n);
    assert rows[..n + 1] == rows[..n] + [rows[n]];
  }

  /** `partition_rows`: one pass over the rows, one file per partition. */
  method PartitionRows(rows: seq<DiffRecord>, part: Partitioner, schemaDigest: Digest, maxRecordBytes: nat,
                       hash: HashFunction)
    returns (r: Result<seq<seq<byte>>>)
    requires Assigns(part)
    ensures r.Success? ==> Writable(rows, maxRecordBytes) && Stored(r.value, rows, part, schemaDigest, hash)
  {
    var writers := CreateWriters(schemaDigest);
    for n := 0 to |rows|
      invariant fresh(set w | w in writers) && Writing(writers, rows, n, part, schemaDigest, maxRecordBytes)
    {
      var written := WriteRow(writers, rows, n, part, schemaDigest, maxRecordBytes);
      if written.Failure? {
        return Failure(written.error);
      }
    }
    assert rows[..|rows|] == rows;
    var files := FinishFiles(writers, rows, part, schemaDigest, maxRecordBytes, hash);
    r := Success(files);
  }

  method FinishFiles(writers: seq<PartitionWriter>, ghost rows: seq<DiffRecord>, ghost part: Partitioner,
                     ghost schemaDigest: Digest,
                     ghost maxRecordBytes: nat, hash: HashFunction) returns (files: seq<seq<byte>>)
    requires Writing(writers, rows, |rows|, part, schemaDigest, maxRecordBytes)
    ensures Stored(files, rows, part, schemaDigest, hash)
  {
    files := [];
    for p := 0 to PARTITIONS
      invariant FilesBelow(files, rows, p, part, schemaDigest, hash) &&
                Writing(writers, rows, |rows|, part, schemaDigest, maxRecordBytes)
    {
      var file := FinishFile(writers, rows, p, part, schemaDigest, maxRecordBytes, hash);
      files := files + [file];
    }
  }

  ghost predicate FilesBelow(files: seq<seq<byte>>, rows: seq<DiffRecord>, n: nat, part: Partitioner,
                             schemaDigest: Digest, hash: HashFunction) {
    |files| == n && forall p | 0 <= p < n :: files[p] == FileOf(InPartition(rows, part, p), schemaDigest, hash)
  }

  method FinishFile(writers: seq<PartitionWriter>, ghost rows: seq<DiffRecord>, p: nat, ghost part: Partitioner,
                    ghost schemaDigest: Digest,
                    ghost maxRecordBytes: nat, hash: HashFunction) returns (file: seq<byte>)
    requires p < PARTITIONS && Writing(writers, rows, |rows|, part, schemaDigest, maxRecordBytes)
    ensures file == FileOf(InPartition(rows, part, p), schemaDigest, hash)
  {
    assert rows[..|rows|] == rows;
    file := writers[p].Finish(hash);
  }

  // ----- comparing one partition -----------------------------------------------------------------------

  ghost function KeysBelow(m: Entries, part: Partitioner, p: nat): set<Key> { set k | k in m && part(k) < p }

  /** What the readers admit: the writer's record limit, one value per column, valid display text. */
  ghost predicate Tabular(rows: seq<DiffRecord>, columns: nat, utf8: Utf8) {
    forall r | r in rows :: |r.entry.values| <= columns && utf8(r.entry.displayKey)
  }

  method ReadPartition(file: seq<byte>, ghost rows: seq<DiffRecord>, schemaDigest: Digest, hash: HashFunction,
                       limits: Limits, utf8: Utf8)
    returns (r: Result<seq<DiffRecord>>)
    requires file == FileOf(rows, schemaDigest, hash) && Writable(rows, limits.maxRecordBytes) &&
             Tabular(rows, limits.maxColumns, utf8)
    ensures r.Success? ==> r.value == rows
  {
    var available := Reserve();
    if !available {
      return Failure(Limit);
    }
    r := ReadAll(file, schemaDigest, hash, limits, utf8);
    if r.Success? {
      RowsFit(rows);
      assert Readable(rows, limits, utf8);
    }
  }

  lemma {:induction false} RowsFit(rows: seq<DiffRecord>)
    ensures |rows| <= |Payload(rows)|
  {
    if rows != [] {
      RowsFit(rows[1..]);
    }
  }

  /** Both sides of a partition: the before-rows as a map, the after-rows in file order. */
  method ReadSides(beforeFile: seq<byte>, afterFile: seq<byte>, schemaDigest: Digest, hash: HashFunction,
                   limits: Limits, utf8: Utf8,
                   ghost beforeRows: seq<DiffRecord>, ghost afterRows: seq<DiffRecord>)
                     returns (r: Result<(Entries, seq<DiffRecord>)>)
    requires beforeFile == FileOf(beforeRows, schemaDigest, hash) && afterFile == FileOf(afterRows, schemaDigest, hash)
    requires Writable(beforeRows, limits.maxRecordBytes) && Writable(afterRows, limits.maxRecordBytes)
    requires Tabular(beforeRows, limits.maxColumns, utf8) && Tabular(afterRows, limits.maxColumns, utf8)
    ensures r.Success? ==> Distinct(beforeRows) && r.value == (MapOf(beforeRows), afterRows)
  {
    var beforePart := ReadPartition(beforeFile, beforeRows, schemaDigest, hash, limits, utf8);
    if beforePart.Failure? {
      return Failure(beforePart.error);
    }
    var before := CollectEntries(beforePart.value);
    if before.Failure? {
      return Failure(before.error);
    }
    var afterPart := ReadPartition(afterFile, afterRows, schemaDigest, hash, limits, utf8);
    if afterPart.Failure? {
      return Failure(afterPart.error);
    }
    r := Success((before.value, afterPart.value));
  }

  /** The accumulator once the keys of the partitions below p are compared. */
  ghost predicate SidesCompared(acc: Accumulator, b: Entries, a: Entries, part: Partitioner, p: nat, names: seq<string>)
    reads acc
  {
    Comparing(acc, b, a, KeysBelow(a, part, p), KeysBelow(b, part, p), names)
  }

  /** Rows as the writer accepts and the reader admits them. */
  ghost predicate Diffable(rows: seq<DiffRecord>, limits: Limits, utf8: Utf8) {
    Writable(rows, limits.maxRecordBytes) && Tabular(rows, limits.maxColumns, utf8)
  }

  /** `mine` is the part of `m` with the keys of partition p. */
  ghost predicate Restricts(mine: Entries, m: Entries, part: Partitioner, p: nat) {
    && (forall k :: k in mine <==> k in m && part(k) == p)
    && forall k | k in mine :: mine[k] == m[k]
  }

  lemma PartReady(rows: seq<DiffRecord>, part: Partitioner, p: nat, limits: Limits, utf8: Utf8)
    requires Diffable(rows, limits, utf8)
    ensures Diffable(InPartition(rows, part, p), limits, utf8) &&
            Restricts(MapOf(InPartition(rows, part, p)), MapOf(rows), part, p)
  {
    PartitionMembers(rows, part, p);
    PartitionMap(rows, part, p);
  }

  /** `process_partition`. */
  method ProcessPartition(acc: Accumulator, beforeFile: seq<byte>, afterFile: seq<byte>, schemaDigest: Digest,
                          hash: HashFunction,
                          limits: Limits, utf8: Utf8, names: seq<string>, ghost beforePart: seq<DiffRecord>,
                            ghost afterPart: seq<DiffRecord>,
                          ghost b: Entries, ghost a: Entries, ghost part: Partitioner, ghost p: nat)
    returns (r: Result<()>)
    requires SidesCompared(acc, b, a, part, p, names)
    requires beforeFile == FileOf(beforePart, schemaDigest, hash) && Restricts(MapOf(beforePart), b, part, p)
    requires afterFile == FileOf(afterPart, schemaDigest, hash) && Restricts(MapOf(afterPart), a, part, p)
    requires Diffable(beforePart, limits, utf8) && Diffable(afterPart, limits, utf8)
    modifies acc
    ensures r.Success? ==> Distinct(beforePart) && Distinct(afterPart) && SidesCompared(acc, b, a, part, p + 1, names)
  {
    var sides := ReadSides(beforeFile, afterFile, schemaDigest, hash, limits, utf8, beforePart, afterPart);
    if sides.Failure? {
      return Failure(sides.error);
    }
    r := CompareSides(acc, sides.value.0, sides.value.1, names, b, a, part, p);
  }

  method CompareSides(acc: Accumulator, before: Entries, rows: seq<DiffRecord>, names: seq<string>,
                      ghost b: Entries, ghost a: Entries, ghost part: Partitioner, ghost p: nat)
    returns (r: Result<()>)
    requires SidesCompared(acc, b, a, part, p, names) && Restricts(before, b, part, p) &&
             Restricts(MapOf(rows), a, part, p)
    modifies acc
    ensures r.Success? ==> Distinct(rows) && SidesCompared(acc, b, a, part, p + 1, names)
  {
    NextKeys(a, MapOf(rows), part, p);
    NextKeys(b, before, part, p);
    var seen;
    r, seen := ComparePart(acc, before, rows, names, b, a, KeysBelow(a, part, p), KeysBelow(b, part, p),
                           KeysBelow(a, part, p + 1));
    if r.Failure? {
      return;
    }
    r := ScanAll(acc, before, seen, names, b, a, KeysBelow(a, part, p + 1), KeysBelow(b, part, p),
                 KeysBelow(b, part, p + 1));
  }

  lemma NextKeys(m: Entries, mine: Entries, part: Partitioner, p: nat)
    requires forall k :: k in mine <==> k in m && part(k) == p
    ensures KeysBelow(m, part, p + 1) == KeysBelow(m, part, p) + mine.Keys && KeysBelow(m, part, p) !! mine.Keys
  {
  }

  // ----- the partitioned diff ----------------------------------------------------------------------------

  /** `diff_readers_with_options` past the choice of path, on rows already keyed and hashed. */
  method DiffPartitioned(beforeRows: seq<DiffRecord>, afterRows: seq<DiffRecord>, names: seq<string>, limit: nat,
                         output: bool, outputLimit: nat,
                         keyCost: Cost<DisplayKey>, rowCost: Cost<ChangedRow>, part: Partitioner, schemaDigest: Digest,
                           hash: HashFunction,
                         maxRecordBytes: nat, utf8: Utf8) returns (r: Result<DiffReport>)
    requires Assigns(part) && Tabular(beforeRows, |names|, utf8) && Tabular(afterRows, |names|, utf8)
    ensures r.Success? ==> Distinct(beforeRows) && Distinct(afterRows)
    ensures r.Success? ==> IsDiff(r.value, MapOf(beforeRows), MapOf(afterRows), names, limit)
  {
    var before := PartitionRows(beforeRows, part, schemaDigest, maxRecordBytes, hash);
    if before.Failure? {
      return Failure(before.error);
    }
    var after := PartitionRows(afterRows, part, schemaDigest, maxRecordBytes, hash);
    if after.Failure? {
      return Failure(after.error);
    }
    var acc := new Accumulator(|beforeRows|, |afterRows|, limit, output, outputLimit, keyCost, rowCost);
    BeginParts(acc, beforeRows, afterRows, part, names, Limits(maxRecordBytes, |names|), utf8);
    var compared := ComparePartitions(acc, before.value, after.value, beforeRows, afterRows, part, schemaDigest, hash,
                                      Limits(maxRecordBytes, |names|), utf8, names, MapOf(beforeRows),
                                        MapOf(afterRows));
    if compared.Failure? {
      return Failure(compared.error);
    }
    EndParts(acc, beforeRows, afterRows, part, names);
    var report := FinishDiff(acc, MapOf(beforeRows), MapOf(afterRows), names);
    r := Success(report);
  }

  ghost predicate DistinctBelow(rows: seq<DiffRecord>, part: Partitioner, p: nat) {
    forall q | 0 <= q < p :: Distinct(InPartition(rows, part, q))
  }

  /** The sixty-four partitions in turn. */
  method ComparePartitions(acc: Accumulator, beforeFiles: seq<seq<byte>>, afterFiles: seq<seq<byte>>,
                           ghost beforeRows: seq<DiffRecord>, ghost afterRows: seq<DiffRecord>, ghost part: Partitioner,
                           schemaDigest: Digest, hash: HashFunction, limits: Limits, utf8: Utf8, names: seq<string>,
                           ghost b: Entries, ghost a: Entries)
    returns (r: Result<()>)
    requires PartsCompared(acc, beforeRows, afterRows, b, a, part, 0, names)
    requires Stored(beforeFiles, beforeRows, part, schemaDigest, hash) &&
             Stored(afterFiles, afterRows, part, schemaDigest, hash)
    requires Parted(beforeRows, b, part, limits, utf8) && Parted(afterRows, a, part, limits, utf8)
    modifies acc
    ensures r.Success? ==> PartsCompared(acc, beforeRows, afterRows, b, a, part, PARTITIONS, names)
  {
    r := Success(());
    for p := 0 to PARTITIONS
      invariant r.Success? && PartsCompared(acc, beforeRows, afterRows, b, a, part, p, names)
    {
      r := CompareNext(acc, beforeFiles, afterFiles, beforeRows, afterRows, part, schemaDigest, hash, limits, utf8,
                       names, b, a, p);
      if r.Failure? {
        return;
      }
    }
  }

  /** The partitions below p are compared and hold no key twice. */
  ghost predicate PartsCompared(acc: Accumulator, beforeRows: seq<DiffRecord>, afterRows: seq<DiffRecord>, b: Entries,
                                a: Entries,
                                part: Partitioner, p: nat, names: seq<string>)
    reads acc
  {
    DistinctBelow(beforeRows, part, p) && DistinctBelow(afterRows, part, p) && SidesCompared(acc, b, a, part, p, names)
  }

  method CompareNext(acc: Accumulator, beforeFiles: seq<seq<byte>>, afterFiles: seq<seq<byte>>,
                     ghost beforeRows: seq<DiffRecord>, ghost afterRows: seq<DiffRecord>, ghost part: Partitioner,
                     schemaDigest: Digest, hash: HashFunction, limits: Limits, utf8: Utf8, names: seq<string>,
                     ghost b: Entries, ghost a: Entries, p: nat)
    returns (r: Result<()>)
    requires p < PARTITIONS && PartsCompared(acc, beforeRows, afterRows, b, a, part, p, names)
    requires Stored(beforeFiles, beforeRows, part, schemaDigest, hash) &&
             Stored(afterFiles, afterRows, part, schemaDigest, hash)
    requires Parted(beforeRows, b, part, limits, utf8) && Parted(afterRows, a, part, limits, utf8)
    modifies acc
    ensures r.Success? ==> PartsCompared(acc, beforeRows, afterRows, b, a, part, p + 1, names)
  {
    ghost var beforePart, afterPart := InPartition(beforeRows, part, p), InPartition(afterRows, part, p);
    PartAt(beforeFiles, beforeRows, b, part, p, schemaDigest, hash, limits, utf8, beforePart);
    PartAt(afterFiles, afterRows, a, part, p, schemaDigest, hash, limits, utf8, afterPart);
    r := ProcessPartition(acc, beforeFiles[p], afterFiles[p], schemaDigest, hash, limits, utf8, names, beforePart,
                          afterPart, b, a, part, p);
    if r.Success? {
      DistinctNext(beforeRows, part, p, beforePart);
      DistinctNext(afterRows, part, p, afterPart);
    }
  }

  lemma PartAt(files: seq<seq<byte>>, rows: seq<DiffRecord>, m: Entries, part: Partitioner, p: nat,
               schemaDigest: Digest, hash: HashFunction,
               limits: Limits, utf8: Utf8, mine: seq<DiffRecord>)
    requires p < PARTITIONS && Stored(files, rows, part, schemaDigest, hash) && Parted(rows, m, part, limits, utf8)
    requires mine == InPartition(rows, part, p)
    ensures files[p] == FileOf(mine, schemaDigest, hash) && Diffable(mine, limits, utf8) &&
            Restricts(MapOf(mine), m, part, p)
  {
    assert PartOf(rows, m, part, p, limits, utf8);
  }

  lemma DistinctNext(rows: seq<DiffRecord>, part: Partitioner, p: nat, mine: seq<DiffRecord>)
    requires DistinctBelow(rows, part, p) && mine == InPartition(rows, part, p) && Distinct(mine)
    ensures DistinctBelow(rows, part, p + 1)
  {
  }

  ghost predicate PartOf(rows: seq<DiffRecord>, m: Entries, part: Partitioner, p: nat, limits: Limits, utf8: Utf8) {
    Diffable(InPartition(rows, part, p), limits, utf8) && Restricts(MapOf(InPartition(rows, part, p)), m, part, p)
  }

  ghost predicate Parted(rows: seq<DiffRecord>, m: Entries, part: Partitioner, limits: Limits, utf8: Utf8) {
    forall p: nat :: PartOf(rows, m, part, p, limits, utf8)
  }

  lemma BeginParts(acc: Accumulator, beforeRows: seq<DiffRecord>, afterRows: seq<DiffRecord>, part: Partitioner,
                   names: seq<string>, limits: Limits, utf8: Utf8)
    requires acc.Valid() && acc.log.added == acc.log.removed == [] && acc.log.changed == []
    requires Diffable(beforeRows, limits, utf8) && Diffable(afterRows, limits, utf8)
    ensures PartsCompared(acc, beforeRows, afterRows, MapOf(beforeRows), MapOf(afterRows), part, 0, names)
    ensures Parted(beforeRows, MapOf(beforeRows), part, limits, utf8) &&
            Parted(afterRows, MapOf(afterRows), part, limits, utf8)
  {
    NothingCompared(acc, MapOf(beforeRows), MapOf(afterRows), names);
    NoKeysBelow(MapOf(afterRows), part);
    NoKeysBelow(MapOf(beforeRows), part);
    AllParts(beforeRows, part, limits, utf8);
    AllParts(afterRows, part, limits, utf8);
  }

  lemma AllParts(rows: seq<DiffRecord>, part: Partitioner, limits: Limits, utf8: Utf8)
    requires Diffable(rows, limits, utf8)
    ensures Parted(rows, MapOf(rows), part, limits, utf8)
  {
    forall p: nat ensures PartOf(rows, MapOf(rows), part, p, limits, utf8) {
      PartReady(rows, part, p, limits, utf8);
    }
  }

  lemma EndParts(acc: Accumulator, beforeRows: seq<DiffRecord>, afterRows: seq<DiffRecord>, part: Partitioner,
                 names: seq<string>)
    requires Assigns(part) &&
             PartsCompared(acc, beforeRows, afterRows, MapOf(beforeRows), MapOf(afterRows), part, PARTITIONS, names)
    ensures Distinct(beforeRows) && Distinct(afterRows)
    ensures Comparing(acc, MapOf(beforeRows), MapOf(afterRows), MapOf(afterRows).Keys, MapOf(beforeRows).Keys, names)
    ensures |MapOf(beforeRows)| == |beforeRows| && |MapOf(afterRows)| == |afterRows|
  {
    DistinctParts(beforeRows, part);
    DistinctParts(afterRows, part);
    DistinctCount(beforeRows);
    DistinctCount(afterRows);
    NoKeysBelow(MapOf(afterRows), part);
    NoKeysBelow(MapOf(beforeRows), part);
  }

  lemma NoKeysBelow(m: Entries, part: Partitioner)
    ensures KeysBelow(m, part, 0) == {} && (Assigns(part) ==> KeysBelow(m, part, PARTITIONS) == m.Keys)
  {
  }

  /**
   Whenever both paths succeed on the same rows, they report the same counts and the same sampled keys;
   where no two changed rows share a display key, the two reports are equal.
   */
  method BothPaths(beforeRows: seq<DiffRecord>, afterRows: seq<DiffRecord>, names: seq<string>, limit: nat,
                   output: bool, outputLimit: nat,
                   keyCost: Cost<DisplayKey>, rowCost: Cost<ChangedRow>, part: Partitioner, schemaDigest: Digest,
                     hash: HashFunction,
                   maxRecordBytes: nat, utf8: Utf8) returns (memory: Result<DiffReport>, disk: Result<DiffReport>)
    requires Assigns(part) && Tabular(beforeRows, |names|, utf8) && Tabular(afterRows, |names|, utf8)
    ensures memory.Success? && disk.Success? ==>
              && memory.value.(changed := []) == disk.value.(changed := [])
              && Keys(memory.value.changed, RowKey) == Keys(disk.value.changed, RowKey)
              && (DistinctDisplays(MapOf(beforeRows), MapOf(afterRows)) ==> memory.value == disk.value)
    ensures memory.Success? ==> Distinct(beforeRows) && Distinct(afterRows)
    ensures disk.Success? ==> Distinct(beforeRows) && Distinct(afterRows)
    ensures memory.Success? ==> IsDiff(memory.value, MapOf(beforeRows), MapOf(afterRows), names, limit)
    ensures disk.Success? ==> IsDiff(disk.value, MapOf(beforeRows), MapOf(afterRows), names, limit)
    ensures memory.Success? ==>
            memory.value.beforeRows + memory.value.addedCount == memory.value.afterRows + memory.value.removedCount
    ensures disk.Success? ==>
            disk.value.beforeRows + disk.value.addedCount == disk.value.afterRows + disk.value.removedCount
  {
    memory := DiffInMemory(beforeRows, afterRows, names, limit, output, outputLimit, keyCost, rowCost);
    disk := DiffPartitioned(beforeRows, afterRows, names, limit, output, outputLimit, keyCost, rowCost, part,
                            schemaDigest, hash, maxRecordBytes, utf8);
    var b, a := MapOf(beforeRows), MapOf(afterRows);
    if memory.Success? {
      DiffBalances(memory.value, b, a, names, limit);
    }
    if disk.Success? {
      DiffBalances(disk.value, b, a, names, limit);
    }
    if memory.Success? && disk.Success? {
      DiffDetermined(memory.value, disk.value, b, a, names, limit);
      if DistinctDisplays(b, a) {
        ReportsEqual(memory.value, disk.value, b, a, names, limit);
      }
    }
  }
}
