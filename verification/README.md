# ProofFrame in Dafny

ProofFrame checks data contracts, compares datasets and fingerprints them, and its promises are
promises of exactness: counts, differences and digests must not depend on the memory budget, on when
buffers spill, on how rows are batched, or on which thread finished first. Each component replaces an
obvious specification by a stateful, bounded or parallel algorithm. This project models those
algorithms and proves that they compute what the specification says.

Check the whole project with `dafny verify dfyconfig.toml`.

## Modules

| modules | what they model | what the main theorems say |
|---|---|---|
| Records, RunFile, Merge, Summary, ExactState | exact state: segments that grow or spill to sorted runs, compaction thirty-two at a time, the heap merge | `ExactState.Finish`: whatever the schedule, the summary is a function of the multiset of (value, row) that was inserted |
| SetOperations | `UniqueMerge`, intersection and anti-join of two sorted stores | the two operations are set intersection and difference of what was inserted, with exact counts and first samples |
| Findings, Evidence | the validation state every rule reports to, reports, and the evidence record about them | retained = min(violations, limit) through every rule, so no engine report fails its own evidence |
| Workers, Partition, PartitionFingerprints | the shared queue and result slots, the ordered merge of reports, the partition iterators | every interleaving ends with all slots filled, and the merged report is that of one ordered traversal |
| Canonical, ValueEncoder, FingerprintV1, SchemaPreimage, FingerprintV2 | the recursive value encoder, the streaming encoder with back-patched lengths, both fingerprints | the two encoders feed the same bytes; encodings are uniquely decodable; fingerprints ignore batching and determine rows and columns |
| Keys, KeyRules, Ordering, RowFindings, RowRules | reference and composite keys, and the monotonicity, gap and mutual-exclusion rules | violation counts and the rows that findings name are those of the whole dataset, for every split into batches |
| Resources | hierarchical accounts: locked charging with a compare-exchange loop, rollback, peaks, unlocked releases | in every interleaving usage is the sum of the reservations, within every cap, and a charge is refused exactly when it does not fit with what is settled |
| Fraction, Decimal | comparing a ratio of counts with a binary64 bound; decimal literals at a scale | both are exact, with the exact condition where they are not |
| DiffCodec, DiffFiles, DiffReports, Diff, DiffPartitions, DiffRows, DiffDatasets, Ledger | the partition file codec, bounded samples, the in-memory and the sixty-four-way partitioned diff, budget ledgers | the codec is a bijection onto accepted files; samples are the smallest keys in any arrival order; both paths report the same difference, and it is the difference of the datasets |
| Bytes, Arithmetic, Sequences, Sets, Sorting | little-endian integers, length prefixes, products, batches, images of sets, sorted arrangements of multisets | |

## How the model is built

- Code that changes things step by step is imperative: classes with the source's fields, loops with
  invariants, methods proved against a function or predicate. Code made of expressions is functions.
- A digest is an arbitrary function from bytes to thirty-two bytes. Where the code takes equal digests
  for equal content, the theorem names the finitely many strings on which the function must not collide.
- Files are byte sequences. Memory grants, cancellation and the account behind a reservation are
  nondeterministic choices: a theorem about a successful call holds for every sequence of grants.
- Integer widths are explicit where they decide a result: row numbers, lengths, record and payload
  counts of files, evaluated values, account usage, decimal and fraction arithmetic. Counts of
  violations, of distinct and duplicate values and of diff events are unbounded here; the code adds or
  saturates them in 64 bits.
- Threads are a state machine over their atomic steps, and theorems quantify over every run of it.
  Accounts form one tree, so there is one reservation lock.

## Where the code does less than its comments or its shape suggest

- Diff scratch buffer (`src/diff/partition.rs:72-77`): the code charges what a record exceeds the
  *capacity* by, but `reserve_exact` counts from the *length*. The reserved capacity holds the record if
  and only if the buffer was large enough or exactly full (`DiffFiles.ReservationCovers`); over a
  writer's whole run, if and only if every new largest record directly follows one of the largest so far
  (`DiffFiles.WriteAll`). Records of 120, 60 and 150 bytes are the counterexample
  (`DiffFiles.UncoveredExample`): the charge is 150, and the reserved capacity of 120 does not hold the
  third.
- Ratio bounds (`src/execution/dataset_state.rs:919-922`): with no rows the code uses the total order
  on floats, which puts -0.0 below 0.0, so a ratio of zero lies above a bound of -0.0. On every other
  input the comparison is exact (`Fraction.ComparisonIsExact`, an equivalence).
- Decimal bounds with a negative scale (`src/contract/bounds.rs:241-257`): the undivided integer must
  fit 128 bits, so 2·10^38 at scale -38 is refused although its value at that scale is the integer 2.
  `Decimal.ParseIsExact` gives the condition for every scale, `Decimal.OrdinaryScales` shows that it
  is empty for scale ≥ 0 and precision ≤ 38.

## How specifications are pinned down

The algorithms are proved against specification functions. What those functions say is proved as well, by
theorems that use only arithmetic, indices and quantifiers:

- orders by `<=` and by the first byte that differs (`Records.ValueMeans`, `RowRules.IntegersInDirection`,
  `RowRules.TextsInDirection`, `DiffReports.RetainedPrecede`, `Diff.ChangedComeFirst`);
- findings by the row they name (`Partition.FindingAt`, `RowRules.OrderFindingOf`,
  `RowRules.ExclusiveFindingOf`, `KeyRules.NullKeyFindingsAre`, `Findings.SampledFindingAt`);
- summaries, joins and differences by their members (`Summary.DuplicateRecordsAre`,
  `SetOperations.JoinMembers`, `DiffDatasets.DifferenceMeans`);
- byte formats byte by byte (the `…Bytes` and `…Layout` lemmas), on top of what equal bytes determine
  (`FingerprintV1.PreimageV1Determines`, `SchemaPreimage.PreimageMeans`);
- decisions by the inequality behind them (`Resources.Decision`, `DiffFiles.AdmittedMeans`,
  `Decimal.FitsMeans`).

## Model

| member | source | states |
|---|---|---|
| Records.LexMeans | src/diff/mod.rs:678-694 | the order of byte strings: a prefix comes first, otherwise the smaller byte at the first difference |
| Records.ValueMeans | src/distinct/mod.rs:104-110 | the order of values, kind by kind: signed, unsigned, float patterns, byte strings; within a kind by size or by the first difference |
| RunFile.WriteRun | src/distinct/run.rs:96-216 | a written run is a header announcing exactly the records and payload bytes that follow, and its payload is the encodings of the sorted records in order; the recorded longest value is the longest; corruption is reported only for sizes beyond 64 bits |
| RunFile.RecordLayout | src/distinct/run.rs:104-165 | a record byte by byte: its value as a word, or behind a 32-bit length, then its row |
| RunFile.HeaderLayout | src/distinct/run.rs:197-202 | the header byte by byte, with the tag of every value kind |
| RunFile.StoredFile | src/distinct/run.rs:185-216 | a stored run is its header, with the counts and the checksum of the payload, and its records one after another, all of one kind |
| RunFile.EncodeAll | src/distinct/run.rs:185-216 | the payload is the concatenation of the record encodings, and the longest value is found on the way |
| RunFile.ReadRecordOf | src/distinct/run.rs:801-834 | what was written is read back, and a value over 64 MiB is refused as corrupt |
| RunFile.NextOf | src/distinct/run.rs:801-863 | a cursor over a run returns its records one by one and then, past the end check, reports the end |
| RunFile.DrainOfWritten | src/distinct/run.rs:755-864 | draining a written run returns exactly its records, in order; it fails exactly when some value is too long to read |
| RunFile.DrainedIsEncoded | src/distinct/run.rs:801-863 | for any bytes whatsoever: a payload that drains without error is the encoding of what it drained to |
| RunFile.OpenRun | src/distinct/run.rs:763-799 | opening checks every header field; it never fails on a file the module wrote |
| RunFile.VerifyPayload | src/distinct/run.rs:866-887 | reading buffer by buffer hashes the whole payload: success and corruption are decided by its length and checksum |
| Merge.OpenMerge | src/distinct/run.rs:315-329 | cursors and heap stand for the multiset union of the runs in (value, row) order |
| Merge.MergeSource.Take | src/distinct/run.rs:340-359 | a pop and refill takes the next record of that order off, together with its bytes; it fails only on a value the reader refuses |
| Merge.MergeSource.Peek | src/distinct/run.rs:713-721 | the heap top is the next record of the union |
| Merge.LeastHead | src/distinct/run.rs:421-441 | the least heap entry is the least record of all streams |
| ExactState.Compact | src/distinct/run.rs:218-378 | compaction yields one sorted run of the multiset union; the "length changed during merge" error never arises from runs this module wrote; the longest value of the union is recorded |
| ExactState.LongestOfUnion | src/distinct/run.rs:288-292 | the largest recorded maximum is the longest value of the union |
| Merge.PayloadSizePlus | src/distinct/run.rs:259-300 | payload sizes add up, whatever the order of the records |
| ExactState.MergePayload | src/distinct/run.rs:331-366 | the merged payload is the union in order, with as many records and bytes as the headers announced |
| ExactState.TotalsAgree | src/distinct/run.rs:259-300 | the summed header sizes are the size of the union |
| ExactState.CountMerged | src/distinct/run.rs:443-511 | the streaming count over the merge computes the summary of the union |
| Summary.SummaryDetermined | src/distinct/mod.rs:72-78 | a summary is a function of the multiset of (value, row) and the sample limit |
| Summary.SummaryMeans | src/distinct/mod.rs:72-78 | distinct values are counted, distinct plus duplicates is everything inserted, and the samples are the first of the duplicates |
| Summary.DuplicateRecordsAre | src/distinct/run.rs:469-494 | the duplicates are all records but one lowest-row record of each value |
| Summary.DuplicateAt | src/distinct/run.rs:469-494 | a sample names the row of a duplicate and the lowest row of its value |
| Summary.AscendingMeans | src/distinct/mod.rs:655-709 | they come in ascending order of the actual values, and equal values by row |
| Summary.SampleCount | src/distinct/mod.rs:72-78 | the number of samples is the smaller of the duplicate count and the limit |
| Summary.LeadersPerValue | src/distinct/run.rs:469-494 | there is exactly one lowest-row record per distinct value |
| Summary.PassSummarizes | src/distinct/mod.rs:647-745 | one pass over the sorted records finds the distinct values, and the duplicates in (value, row) order, each with the lowest row of its value |
| Summary.PassStep | src/distinct/run.rs:469-494 | one merged record either repeats the current value or starts the next one; both ways the counts and samples stay those of the prefix |
| Summary.CountInMemory | src/distinct/mod.rs:647-745 | sorting and counting in memory computes the summary of the buffered multiset; it fails only for want of memory |
| ExactState.GrowFixed | src/distinct/mod.rs:486-506 | growing in place keeps every record and doubles the capacity |
| ExactState.GrowBytes | src/distinct/mod.rs:513-556 | growing index or arena keeps every record and slice and makes room for the value at hand |
| ExactState.AllocateFixed | src/distinct/mod.rs:565-589 | halving the request ends in an empty segment of at least one and at most the desired records, or in a refusal |
| ExactState.AllocateBytes | src/distinct/mod.rs:799-836 | halving never goes below the value to be stored, nor past 32-bit offsets |
| ExactState.Append | src/distinct/mod.rs:464-477 | one record more is buffered, after those already there |
| ExactState.AppendedSlice | src/distinct/mod.rs:612-623 | appending to the arena leaves every earlier slice as it was |
| ExactState.Spill | src/distinct/mod.rs:591-609 | spilling writes the buffered multiset as one sorted run and leaves an empty buffer; without a run there was nothing to spill |
| ExactState.CompactOldest | src/distinct/mod.rs:338-355 | folding the oldest thirty-two runs keeps the union |
| ExactState.CompactIfNeeded | src/distinct/mod.rs:338-355 | afterwards at most thirty-two runs hold the same multiset; nothing is touched when there were no more before |
| ExactState.SpillAndCompact | src/distinct/mod.rs:321-355 | spilling and compacting moves the buffered multiset into the runs and loses nothing |
| ExactState.MakeRoom | src/distinct/mod.rs:226-257 | a full buffer is grown without a spill target and spilled with one; the contents stay the same |
| ExactState.ExactState.constructor | src/distinct/mod.rs:169-223 | a new state holds nothing |
| ExactState.ExactState.Insert | src/distinct/mod.rs:225-276 | for every growth, halving, spill and compaction schedule: success adds exactly one record and leaves at most thirty-two runs; a value of another kind changes nothing; other corruption is reported only over a value above 64 MiB or a size beyond 64 bits |
| ExactState.ExactState.Seal | src/distinct/mod.rs:315-336 | sealing needs a spill target and moves everything inserted into the sorted runs; corruption is reported only over a value above 64 MiB or a size beyond 64 bits |
| ExactState.ExactState.Finish | src/distinct/mod.rs:278-313 | a successful finish returns the summary of the inserted multiset and nothing else, in memory or by merging; corruption is reported only over a value above 64 MiB or a size beyond 64 bits |
| ExactState.SameRowsSameSummary | src/distinct/mod.rs:225-313 | two states of any budgets and schedules, fed the same pairs in any order, agree whenever both succeed; distinct plus duplicates equals the inserts |
| SetOperations.UniquesAreLeaders | src/distinct/run.rs:704-723 | the unique values of a sorted stream, increasing, each with its lowest row, one per distinct value |
| SetOperations.UniqueMerge.constructor | src/distinct/run.rs:669-694 | a new merge has all its unique keys ahead |
| SetOperations.UniqueMerge.Next | src/distinct/run.rs:704-723 | each call returns the next unique key with its lowest row, and None once all are out |
| SetOperations.TakeUnique | src/distinct/run.rs:704-723 | taking a head and draining its repeats removes exactly one unique key |
| SetOperations.DrainValue | src/distinct/run.rs:712-721 | every record of that value is taken off, and no other |
| SetOperations.OpenUnique | src/distinct/run.rs:669-694 | verified runs open as the increasing list of their distinct values |
| SetOperations.AntiJoin | src/distinct/run.rs:579-637 | missing counts and samples are those of the left keys absent on the right, with exact distinct counts on both sides |
| SetOperations.Intersect | src/distinct/run.rs:513-572 | overlap counts and samples are those of the left keys present on the right; a sampled key must be a digest |
| SetOperations.AntiJoinExactStates | src/distinct/mod.rs:402-426 | missing = \|L \ R\| of what was inserted, samples the first missing keys in order with their lowest rows |
| SetOperations.IntersectExactStates | src/distinct/mod.rs:358-373 | overlap = \|L ∩ R\| of what was inserted, with exact distinct counts |
| SetOperations.JoinMembers | src/distinct/run.rs:513-637 | the missing and the shared keys: the lowest-row record of each left value that no right record carries, or some does |
| SetOperations.JoinOrder | src/distinct/run.rs:513-637 | they come in ascending order of the actual values, none twice |
| SetOperations.AntiJoinMeans | src/distinct/run.rs:579-637 | an anti-join counts the distinct values of both sides and the missing ones, and names the rows of the first of them |
| SetOperations.IntersectionMeans | src/distinct/run.rs:513-572 | an intersection does so for the shared values, and its samples are the first of them |
| SetOperations.MissingPlusOverlap | src/distinct/run.rs:513-637 | on the same inputs missing + overlap = left distinct |
| SetOperations.MissingSampleCount | src/distinct/run.rs:579-637 | an anti-join samples all missing keys, or as many as asked for |
| SetOperations.NoMatch | src/distinct/run.rs:601-623 | a left key below the current right key matches nothing on the right |
| SetOperations.OverlapComplete | src/distinct/run.rs:559-572 | left keys that remain once the right is exhausted match nothing |
| Findings.RetainedCount | src/lib.rs:342-350 | what is retained is the smaller of violation count and limit |
| Findings.ValidationState.constructor | src/lib.rs:323-340 | a new state has counted and retained nothing |
| Findings.ValidationState.Record | src/lib.rs:342-350 | one violation more; the finding is retained while there is room and memory, and after the first refusal, which is remembered, nothing more is |
| Findings.ValidationState.ReserveFinding | src/lib.rs:352-383 | a refused reservation is remembered as the resource error |
| Findings.ValidationState.RecordLazy | src/execution/mod.rs:493-510 | same as recording, without building what is not retained |
| Findings.ValidationState.RecordSampled | src/execution/dataset_state.rs:697-711 | announcing a sample and adding the remainder counts the total and keeps retained = min(count, limit) |
| Findings.ValidationState.RecordSampledChecked | src/execution/mod.rs:396-425 | the same with a resource check after every sample |
| Findings.ValidationState.CheckResources | src/lib.rs:400-405 | a remembered resource error ends the execution |
| Findings.ValidationState.Finish | src/lib.rs:407-414 | truncated exactly when a violation was counted but not retained; retained = min(count, limit) |
| Findings.RecordDuplicates | src/execution/dataset_state.rs:689-738 | composite and conditional uniqueness add the occurrences beyond the first of each key |
| Findings.FinishUnique | src/execution/mod.rs:396-425 | one unique column adds its occurrences beyond the distinct ones |
| Findings.FinishUniqueStates | src/execution/mod.rs:396-425 | all unique columns together: count and findings are those of the columns in order |
| Findings.SampledFindingAt | src/execution/mod.rs:411-421 | every sampled duplicate is a finding on its own column and on the duplicate row |
| Findings.SampleTaken | src/execution/mod.rs:404-421 | what is sampled of a column are the first of its duplicates |
| Findings.ExcessMeans | src/execution/mod.rs:396-425 | the excess is what the columns hold beyond their distinct values |
| Findings.BuildReport | src/execution/mod.rs:427-464 | the report carries the first findings up to the limit, the whole count and consistent flags |
| Evidence.EngineReportsValidate | src/evidence/mod.rs:207-276 | evidence built from an engine report is rejected for nothing but another fingerprint version |
| Evidence.ReportsAccepted | src/evidence/mod.rs:207-276 | evidence about any report at all is accepted exactly when its counts and flags agree |
| Evidence.AcceptedCounts | src/evidence/mod.rs:254-274 | accepted evidence retains no more than was counted or allowed, and both flags tell the truth |
| Evidence.HexMeans | src/evidence/mod.rs:293-309 | byte i of a digest is its high and then its low hexadecimal digit |
| Evidence.TaggedMeans | src/evidence/mod.rs:293-330 | a tagged digest is its tag and sixty-four lower-case hexadecimal digits |
| Evidence.AcceptedIdentity | src/evidence/mod.rs:207-254 | accepted evidence carries the tag of every digest, and names the engine, some version of it and the check operation |
| Workers.InitInv | src/execution/partition.rs:173-181 | at the start every index is queued once |
| Workers.NextInv | src/execution/partition.rs:183-219 | every pop, publish and exit keeps each index in exactly one of queue, hand and slot |
| Workers.PublishInv | src/execution/partition.rs:189-215 | publishing moves an index from the hand that held it to its own slot |
| Workers.HeldIsUnfilled | src/execution/partition.rs:189-215 | nobody has published an index that a worker holds |
| Workers.NextDecreases | src/execution/partition.rs:183-219 | every step brings the run exactly one step closer to its end |
| Workers.NoDeadlock | src/execution/partition.rs:183-219 | while a worker runs some step is possible |
| Workers.EveryRunFillsAllSlots | src/execution/partition.rs:162-236 | every interleaving ends after the same number of steps with each slot filled by its own partition |
| Partition.ExecuteReader | src/execution/mod.rs:130-226 | a traversal without global state reports the first findings, the counts and the evaluated values of its batches in order |
| Partition.ScanBatch | src/execution/mod.rs:340-394 | one batch adds its findings at the rows read so far |
| Partition.FindingsConcat | src/execution/partition.rs:250-268 | findings of a later part are its own, moved past the rows before it |
| Partition.FindingAt | src/execution/mod.rs:352-390 | finding q of rule k in batch i is in the report, with its rule, column and message, at its row plus the rows of the batches before, and so in the retained findings when it is among the first |
| Partition.FindingReported | src/execution/mod.rs:427-464 | the first findings, up to the limit, are the ones a report carries |
| Partition.FindingPlaces | src/execution/mod.rs:365-388 | the places of the findings: batch by batch, within a batch rule by rule |
| Partition.ReportCounts | src/execution/mod.rs:427-464 | counts and flags of a report in plain arithmetic: violations, validity, truncation, rows, and the evaluated values of every column |
| Partition.TakeOfConcat | src/execution/partition.rs:250-268 | the first findings of a concatenation need only the first findings of each part |
| Partition.MergeReports | src/execution/partition.rs:238-299 | merging the reports of the parts gives the report of one traversal of their concatenation |
| Partition.MergeOne | src/execution/partition.rs:250-268 | one report is added behind those merged before it |
| Partition.Collect | src/execution/partition.rs:221-236 | the first failed slot fails the whole, otherwise every report is there |
| Partition.ExecuteIndependentPartitions | src/execution/partition.rs:162-236 | after any interleaving of any number of workers the result is that of one ordered traversal, and it fails exactly when a partition did |
| Partition.PartitionSequence.Next | src/execution/partition.rs:318-326 | the batches of all readers in order, empty readers skipped |
| PartitionFingerprints.FingerprintedPartitionSequence.Next | src/execution/partition.rs:377-403 | the concatenated stream batch by batch; at its end every partition has the fingerprint of its own rows; an error exactly when the next batch has a foreign schema |
| PartitionFingerprints.FingerprintedPartitionSequence.FinishCurrent | src/execution/partition.rs:362-371 | closing a partition files its fingerprint and starts the next |
| Bytes.LeByte | src/lib.rs:712-721 | byte i of a little-endian integer is its i-th digit in base 256 |
| Canonical.Encode | src/lib.rs:589-708 | every supported cell encodes to a non-empty string |
| Canonical.NarrowBytes | src/lib.rs:589-628 | null, Booleans and cells of one, two and sixteen bytes byte by byte |
| Canonical.WordBytes | src/lib.rs:608-624 | cells of four and eight bytes byte by byte |
| Canonical.TextBytes | src/lib.rs:629-676 | text and binary cells byte by byte |
| Canonical.SequenceBytes | src/lib.rs:681-703 | lists and maps: a tag, the number of children, the children |
| Canonical.ChildrenBytes | src/lib.rs:712-721 | children follow one another, each behind its length |
| Canonical.CanonicalValueBytes | src/lib.rs:589-708 | the recursive encoder fails exactly on a cell that holds an unsupported value somewhere, and else returns its encoding |
| Canonical.EncodeChildSequence | src/lib.rs:712-721 | children are encoded one by one, each behind its length |
| Canonical.Decode | src/lib.rs:589-708 | whatever the decoder accepts is the encoding of the value it returns |
| Canonical.DecodeOfEncode | src/lib.rs:589-708 | decoding encode(v) + rest recovers v and rest, over all nested values |
| Canonical.PrefixFree | src/lib.rs:589-708 | no encoding is a prefix of another value's |
| Canonical.EncodeInjective | src/lib.rs:589-708 | equal encodings mean equal cells (floats by bit pattern) |
| ValueEncoder.ForFields | src/encoding/plan.rs:427-434 | a plan exists exactly when every column type is supported |
| ValueEncoder.TypedCellFits | src/encoding/plan.rs:47-123 | the encoder compiled for a type accepts every cell of that type |
| ValueEncoder.WriteV1Value | src/encoding/plan.rs:318-419 | appends exactly the canonical encoding of the cell |
| ValueEncoder.WriteChildSequence | src/encoding/plan.rs:450-464 | appends the count and the length-prefixed encodings of the children |
| ValueEncoder.WriteLenPrefixed | src/encoding/plan.rs:466-477 | reserving, writing and patching the length in place appends the length-prefixed encoding and disturbs nothing before it |
| ValueEncoder.UpdateHash | src/lib.rs:727-738 | absorbs index, length and canonical bytes of the cell |
| ValueEncoder.UpdateV1 | src/encoding/plan.rs:125-231 | the streaming encoder feeds the hasher exactly the bytes the simple one feeds |
| ValueEncoder.UpdateDirect | src/encoding/plan.rs:133-200 | the branches that skip the scratch buffer feed the same bytes |
| FingerprintV1.AbsorbHeader | src/encoding/v1.rs:14-28 | the header absorbs name, rendered type and nullability of the columns in order |
| FingerprintV1.FastFingerprint | src/encoding/v1.rs:8-55 | hashes the V1 stream of the concatenated rows, however they are batched; fails exactly on an unsupported column or a changed schema |
| FingerprintV1.ProfileFingerprint | src/lib.rs:740-795 | the profiler hashes the very same stream |
| FingerprintV1.PreimageV1Determines | src/encoding/v1.rs:18-50 | equal V1 streams mean as many columns, with the same names, rendered types and nullability in order, and, with a column at all, the same rows |
| FingerprintV1.FingerprintV1Determines | src/encoding/v1.rs:51-55 | equal V1 fingerprints mean so too, unless the hash collides on the two streams |
| FingerprintV1.PreimageV1Example | src/encoding/v1.rs:18-50 | the exact bytes for one named, nullable column and one cell |
| SchemaPreimage.PreimageDeterminesSchema | src/encoding/v2.rs:96-246 | equal schema preimages mean the same names, nullability, nested types and selected metadata at every depth |
| SchemaPreimage.PreimageMeans | src/encoding/v2.rs:96-123 | column by column: the same name, nullability, type and selected metadata |
| SchemaPreimage.SchemaBytes | src/encoding/v2.rs:96-108 | a schema byte by byte: domain, selected metadata, number of columns, columns under their ordinals |
| SchemaPreimage.FieldBytes | src/encoding/v2.rs:110-123 | a field byte by byte |
| SchemaPreimage.TypeBytes | src/encoding/v2.rs:124-179 | tag and parameters of every plain type |
| SchemaPreimage.NestedTypeBytes | src/encoding/v2.rs:180-207 | and of every nested type |
| SchemaPreimage.SameTag | src/encoding/v2.rs:124-207 | types with equal leading tags are built alike |
| FingerprintV2.UpdateV2 | src/encoding/plan.rs:233-316 | absorbs a presence byte and the value of the cell |
| FingerprintV2.V2FingerprintState.constructor | src/encoding/v2.rs:37-58 | a new state has absorbed no rows |
| FingerprintV2.V2FingerprintState.Update | src/encoding/v2.rs:60-79 | a batch of the same schema appends its rows to every column stream, any other batch is refused |
| FingerprintV2.V2FingerprintState.AbsorbColumns | src/encoding/v2.rs:66-76 | column by column, every stream becomes that of the rows so far |
| FingerprintV2.V2FingerprintState.Finish | src/encoding/v2.rs:81-93 | the digest binds schema digest, row count and each indexed column digest of the rows seen |
| FingerprintV2.RootBytes | src/encoding/v2.rs:81-93 | the bytes under the root digest: domain, schema digest, row count, column count, column digests |
| FingerprintV2.DigestAt | src/encoding/v2.rs:88-91 | each column digest stands behind its own index |
| FingerprintV2.StreamBytes | src/encoding/v2.rs:44-48 | the bytes of a column stream: domain, column index, cells |
| FingerprintV2.CellBytes | src/encoding/plan.rs:233-316 | the bytes of one cell: a presence byte, then its raw value or its length-prefixed bytes |
| FingerprintV2.StreamingFingerprint | src/encoding/v2.rs:11-25 | the V2 fingerprint depends on the concatenated rows only, not on the batches |
| FingerprintV2.ColumnUnique | src/encoding/plan.rs:233-316 | a column stream determines its cells, and how many there are |
| FingerprintV2.StreamsDetermineRows | src/encoding/v2.rs:60-94 | for a fixed schema the column streams and the row count determine the rows |
| FingerprintV2.FingerprintDeterminesRows | src/encoding/v2.rs:81-93 | equal V2 fingerprints mean equal rows, unless the hash collides on one of its inputs |
| FingerprintV2.FingerprintDeterminesSchema | src/encoding/v2.rs:81-108 | and equal schemas with equal selected metadata |
| Keys.AppendScalar | src/execution/dataset_state.rs:846-903 | a key cell is appended by its canonical encoding; nested cells are refused |
| Keys.EncodeKey | src/execution/references.rs:400-416 | a reference key labels each component by position and stops at the first null |
| Keys.EncodeComposite | src/execution/dataset_state.rs:485-505 | a composite key labels each component by column, and notes nulls |
| Keys.PartBytes | src/execution/dataset_state.rs:493-503 | one component: its canonical encoding, in a composite key behind a presence byte |
| Keys.KeyBytes | src/execution/references.rs:400-416 | a key byte by byte: each component behind its label |
| Keys.KeyInjective | src/execution/references.rs:400-416 | under the same labels two encoded keys are equal exactly when their components are |
| KeyRules.MissingTuples | src/execution/references.rs:351-393 | encoded keys missing on one side are as many as the distinct tuples missing there |
| KeyRules.RepeatsAreDuplicates | src/execution/dataset_state.rs:689-713 | records beyond the distinct ones are the rows that repeat an earlier key |
| KeyRules.KeyState.Update | src/execution/references.rs:324-349 | a batch adds the keys of its rows, and one violation per rejected null |
| KeyRules.KeyState.Load | src/execution/references.rs:207-224 | reference rows with a null key are left out |
| KeyRules.ScanReference | src/execution/references.rs:181-227 | the sealed reference holds the keys of all its rows |
| KeyRules.FinishReference | src/execution/references.rs:351-393 | adds exactly the number of distinct local keys absent from the reference, with a finding on each sampled row; a sampled row is the first of a missing key |
| KeyRules.CheckReferenceRule | src/execution/references.rs:115-393 | when key types match, a reference rule adds rejected-null rows plus distinct local keys absent from the reference; its findings are those rows and then the first rows of missing keys |
| KeyRules.CheckCompositeRule | src/execution/dataset_state.rs:484-515 | composite uniqueness adds rejected-null rows plus the sum of (occurrences - 1), for every split into batches; its findings are those rows and then the sampled duplicates |
| KeyRules.ReferenceSamples | src/execution/references.rs:351-393 | the rows an anti-join of the keys names are the first rows of tuples the reference lacks |
| KeyRules.ParticipatesMeans | src/execution/dataset_state.rs:485-510 | which rows take part, cell by cell of their key columns |
| KeyRules.TuplesMean | src/execution/references.rs:324-349 | the key tuples are those of the rows that take part |
| KeyRules.RepeatsMeans | src/execution/dataset_state.rs:689-713 | repeats are the rows whose tuple an earlier row that takes part has |
| KeyRules.NullRowsMeans | src/execution/references.rs:330-340 | rejected rows are the rows with a null among their key cells |
| KeyRules.NullKeyFindingsAre | src/execution/dataset_state.rs:494-502 | and these rows, in order, are the ones findings name |
| Ordering.CompareIsTotalOrder | src/execution/ordering.rs:32-44 | values of one kind are totally ordered, values of two kinds cannot be compared |
| Ordering.IntegersFollow | src/execution/ordering.rs:125-140 | for integers the four directions are <=, <, >= and > |
| Ordering.FloatsFollow | src/execution/ordering.rs:32-44 | for doubles they go by sign and magnitude of the pattern |
| Ordering.TextsFollow | src/execution/ordering.rs:32-44 | for text by prefix or first differing byte |
| Ordering.NeighboursOrderAll | src/execution/ordering.rs:125-140 | if every neighbour follows, the whole column is ordered |
| RowRules.PreviousIsNeighbour | src/execution/dataset_state.rs:309-347 | nulls are stepped over: the value compared with is the last non-null one before |
| RowRules.BreaksAre | src/execution/dataset_state.rs:311-346 | a row breaks a pair rule when the last non-null value before it and its own form a bad pair |
| RowRules.OrderingState.Row | src/execution/dataset_state.rs:311-346 | one row adds a violation, and a finding on it, exactly for a rejected null or an out-of-order neighbour; it fails exactly on values of two kinds |
| RowRules.OrderingState.Update | src/execution/dataset_state.rs:309-347 | one batch adds the violations and findings its rows add to the column so far |
| RowRules.CheckMonotonicity | src/execution/dataset_state.rs:309-347 | for every split into batches: adjacent non-null pairs out of order, plus rejected nulls, of the whole column, with a finding on each such row |
| RowRules.IntegersInDirection | src/execution/ordering.rs:125-140 | a column of integers has no violation exactly when x[i] <= x[j] (or <, >=, > by direction) for all i < j |
| RowRules.UnsignedInDirection | src/execution/ordering.rs:125-140 | the same for unsigned integers |
| RowRules.DoublesInDirection | src/execution/ordering.rs:125-140 | the same for doubles, by sign and magnitude of their patterns |
| RowRules.TextsInDirection | src/execution/ordering.rs:125-140 | the same for text, by prefix or first differing byte |
| RowRules.IntegerViolations | src/execution/dataset_state.rs:311-346 | in general the violations are the rows whose integer is in the wrong order with the last one before it, plus rejected nulls |
| RowRules.OrderFindingsAre | src/execution/dataset_state.rs:320-344 | findings come in row order, as many as violations |
| RowRules.OrderFindingOf | src/execution/dataset_state.rs:320-344 | row i has a finding exactly when it holds a rejected null or a value out of order |
| RowRules.GapState.Row | src/execution/dataset_state.rs:350-379 | one row adds a gap exactly when it steps too far from the value before, and remembers the first; a rejected null has a finding on its row |
| RowRules.GapState.Update | src/execution/dataset_state.rs:348-380 | one batch extends the gaps and reports rejected nulls |
| RowRules.GapState.Finish | src/execution/dataset_state.rs:603-624 | one finding, at the first gap, exactly when there are more gaps than allowed |
| RowRules.CheckGaps | src/execution/dataset_state.rs:348-380 | for every split into batches the gap rule counts what the whole column violates; its findings are the rejected nulls in row order and one at the first gap |
| RowRules.Violations | src/execution/exclusive.rs:30-50 | the once/twice bitmap algebra marks exactly the rows whose number of filled columns breaks the rule |
| RowRules.CheckExclusive | src/execution/dataset_state.rs:456-483 | one violation and one finding per marked row of a batch, at its row of the dataset |
| RowRules.CheckExclusiveBatches | src/execution/dataset_state.rs:456-483 | for every split into batches: the broken rows of the whole dataset, with a finding on each |
| RowRules.FlagsBreakMeans | src/execution/exclusive.rs:30-50 | a row is broken when two of its columns are filled, or when not exactly one is |
| RowRules.ExclusiveFindingsAre | src/execution/dataset_state.rs:466-480 | findings come in row order, one per broken row |
| RowRules.ExclusiveFindingOf | src/execution/dataset_state.rs:466-480 | row i has one exactly when it is broken |
| RowFindings.AlongMeans | src/execution/dataset_state.rs:311-346 | whatever the rule, findings come in row order, at most one per row, and each is the finding of the rule on its row |
| Resources.StepInv | src/execution/resource.rs:201-276 | every step of any thread keeps usage balanced, within caps, and the lock exclusive |
| Resources.CompareExchangeInv | src/execution/resource.rs:260-276 | a successful exchange charges exactly on top of the current usage |
| Resources.UndoInv | src/execution/resource.rs:214-229 | a rollback takes back exactly what the transaction charged |
| Resources.RaisePeakInv | src/execution/resource.rs:232-234 | peaks are raised to what was committed, never past the cap |
| Resources.ReleaseInv | src/execution/resource.rs:239-246 | a release outside the lock never takes a counter below zero |
| Resources.Accounting | src/execution/resource.rs:108-276 | in every interleaving each counter is the sum of the settled reservations plus at most one in flight, within its cap; with none in flight used ≤ peak ≤ cap |
| Resources.RefusedLeavesNothing | src/execution/resource.rs:202-236 | a failed reservation contributes to no counter and never raised a peak |
| Resources.ReadsAreGranted | src/execution/resource.rs:260-276 | a transaction never reads a charge that is later rolled back |
| Resources.GrantedWithinCap | src/execution/resource.rs:260-276 | a charge is granted on settled usage and stays within the cap |
| Resources.Decision | src/execution/resource.rs:260-276 | in every run: with the usage settled when the counter was last read, a charge is rejected exactly when the two exceed the cap or 64 bits together, and granted otherwise once the counter still holds what was read |
| Resources.RejectedForCause | src/execution/resource.rs:264-268 | a rejection means that what was settled at the last read and the charge exceed the cap or 64 bits |
| Resources.NeverStuck | src/execution/resource.rs:202-236 | the transaction that holds the lock can always move, and without one any reservation can begin |
| Resources.DropsProceed | src/execution/resource.rs:239-246 | a granted reservation can always be given back |
| Resources.PeakWasReached | src/execution/resource.rs:232-234 | every peak on record is usage that the counter really had after some charge |
| Resources.ChargeMeans | src/execution/resource.rs:202-246 | settled usage counts the bytes of a granted reservation on every account of its path, and nothing of one in flight, refused or released |
| Fraction.ComparisonIsExact | src/execution/dataset_state.rs:919-959 | the comparison with a binary64 bound in [0, 1] is the exact real order on every input, if and only if it is not zero rows against negative zero |
| Fraction.ComparisonMeans | src/execution/dataset_state.rs:919-959 | with rows the answer is Less, Equal or Greater exactly as numerator / denominator is to the value of the bound |
| Fraction.PatternValue | src/execution/dataset_state.rs:930-941 | that value, from exponent and mantissa |
| Fraction.NegativeZeroCounterexample | src/execution/dataset_state.rs:919-959 | the excluded input: 0 of 0 rows compares above -0.0 |
| Fraction.ReducedIsExact | src/execution/dataset_state.rs:946-958 | a left side too large for 128 bits, or a shift of 128 and more, can only mean Greater |
| Fraction.RightFits | src/execution/dataset_state.rs:957-958 | the right-hand product always fits 128 bits |
| Fraction.SubnormalIsExact | src/execution/dataset_state.rs:932-938 | a subnormal bound lies below every positive ratio of counts |
| Fraction.OneIsExact | src/execution/dataset_state.rs:926-928 | the bound 1 is compared exactly |
| Fraction.InteriorIsExact | src/execution/dataset_state.rs:930-959 | every bound strictly between 0 and 1 is compared exactly |
| Decimal.ScanIsGrammar | src/contract/bounds.rs:202-222 | the scanner accepts exactly the plain literals: sign, digits, optional point and digits |
| Decimal.MagnitudeIsExact | src/contract/bounds.rs:224-257 | padding, dropping zeros and dividing give exactly the magnitude at the scale |
| Decimal.DigitsMeanMagnitude | src/contract/bounds.rs:272-278 | at most p digits means below 10^p |
| Decimal.ParseIsExact | src/contract/bounds.rs:188-270 | a literal is accepted exactly when its value at the scale is an integer within the precision and the integers on the way fit 128 bits; the result is that integer |
| Decimal.RepresentsMeans | src/contract/bounds.rs:188-270 | the value of a literal as a real number: integer digits plus fraction digits over a power of ten, with its sign |
| Decimal.DigitMeans | src/contract/bounds.rs:224-257 | a digit stands for its place in 0123456789 |
| Decimal.SpellsMeans | src/contract/bounds.rs:202-222 | a spelling is an optional sign, the integer digits, and an optional point with the fraction digits |
| Decimal.Spelled | src/contract/bounds.rs:202-222 | and every such text spells its literal |
| Decimal.PrecisionMeans | src/contract/bounds.rs:258-278 | the precision bounds the magnitude by a power of ten |
| Decimal.FitsMeans | src/contract/bounds.rs:224-257 | the 128-bit condition in numbers |
| Decimal.OnlyLiterals | src/contract/bounds.rs:202-222 | text that spells no literal is refused |
| Decimal.OrdinaryScales | src/contract/bounds.rs:188-270 | for scale ≥ 0 and precision ≤ 38 the 128-bit condition never matters |
| Decimal.NegativeScaleCounterexample | src/contract/bounds.rs:241-257 | with a negative scale a short exact value can be refused |
| DiffCodec.EncodedRecordBytes | src/diff/partition.rs:130-148 | the announced length is the exact encoded length, or an overflow |
| DiffCodec.RecordLayout | src/diff/partition.rs:79-91 | a record byte by byte: key, display key, row hash, number of values, values |
| DiffCodec.ValuesLayout | src/diff/partition.rs:86-91 | a value stands behind its length, a missing one is eight times 255 |
| DiffCodec.FileLayout | src/diff/partition.rs:113-127 | a file is its header with counts and checksum, then each record behind its length |
| DiffCodec.DecodeRecord | src/diff/partition.rs:319-358 | whatever decodes is the encoding of the record returned, within the limits |
| DiffCodec.DecodeRecordOf | src/diff/partition.rs:319-358 | every admitted record is decoded back from its encoding |
| DiffCodec.ReadHeaderOf | src/diff/partition.rs:275-317 | a header is read back as it was written |
| DiffFiles.PartitionWriter.constructor | src/diff/partition.rs:39-51 | a new writer has written nothing |
| DiffFiles.PartitionWriter.WriteRecord | src/diff/partition.rs:53-111 | appends one record within the limit; says exactly when the reservation covered the buffer; refuses an oversized record before touching the buffer; fails for no reason but the limit, a size beyond its width, or a refused reservation |
| DiffFiles.PartitionWriter.PrepareScratch | src/diff/partition.rs:72-77 | charges what the record exceeds the capacity by, and reserves that much relative to the length |
| DiffFiles.PartitionWriter.Finish | src/diff/partition.rs:113-127 | the finished file is header and payload of the records written |
| DiffFiles.EncodeRecord | src/diff/partition.rs:78-92 | key, display key, hash, column count and values, each optional value behind a presence byte |
| DiffFiles.ReservationCovers | src/diff/partition.rs:72-77 | the reservation covers the record exactly when the buffer was large enough, or full |
| DiffFiles.WriteAll | src/diff/partition.rs:53-111 | a fresh writer given any records: all reservations cover their records exactly when every new largest record follows one that filled the buffer, and then charge, capacity and largest record are equal |
| DiffFiles.CoverageOfRun | src/diff/partition.rs:72-77 | the same condition on the sequence of record sizes |
| DiffFiles.GrowsMeans | src/diff/partition.rs:72-77 | that condition, index by index: a record is no larger than an earlier one, or the one just before it is the largest so far |
| DiffFiles.ReservedSnoc | src/diff/partition.rs:72-78 | one more record: what the writer reports of it extends the account of the run |
| DiffFiles.RecordOverhead | src/diff/partition.rs:130-148 | every record takes at least 52 bytes |
| DiffFiles.UncoveredExample | src/diff/partition.rs:72-77 | a writer given records of 120, 60 and 150 bytes: 150 bytes are charged, but the reserved capacity of 120 does not hold the third |
| DiffFiles.DrainOfWritten | src/diff/partition.rs:174-205 | draining what was written returns it in order |
| DiffFiles.DrainedIsEncoded | src/diff/partition.rs:174-205 | whatever drains without error is the encoding of what it drained to |
| DiffFiles.PartitionReader.constructor | src/diff/partition.rs:158-172 | a reader over validated content has all of it ahead |
| DiffFiles.PartitionReader.Next | src/diff/partition.rs:174-205 | returns the first record still ahead and leaves the others; fails exactly where draining fails |
| DiffFiles.ValidateFile | src/diff/partition.rs:247-273 | accepts exactly the files whose header, schema, length and checksum agree |
| DiffFiles.ReadAll | src/diff/partition.rs:158-273 | opening and draining succeeds on the files written from admitted records, returning those, and on no other file |
| DiffFiles.AdmittedMeans | src/diff/partition.rs:319-358 | a record is admitted exactly within the limits, each of them inclusive |
| DiffReports.SmallestIsPrefix | src/diff/mod.rs:678-712 | the retained law: the first keys of the sorted events |
| DiffReports.RetainSmallest | src/diff/mod.rs:678-694 | inserting in order and dropping past the limit keeps the smallest keys |
| DiffReports.LawfulIsSmallest | src/diff/mod.rs:678-722 | samples grown by such events are the smallest keys, whatever the arrival order |
| DiffReports.KeepSample | src/diff/mod.rs:714-722 | an event refused by the pre-check would have changed nothing |
| DiffReports.Retain | src/diff/mod.rs:678-712 | samples and reservations stay sorted, aligned and of one length |
| DiffReports.Offer | src/diff/mod.rs:567-583 | one event offered: retained if it belongs among the smallest and its memory is granted |
| DiffReports.SamplesDetermined | src/diff/mod.rs:696-712 | with distinct display keys the retained rows, columns included, are determined by the events |
| DiffReports.Accumulator.constructor | src/diff/mod.rs:532-561 | a new accumulator has logged nothing |
| DiffReports.Accumulator.Added | src/diff/mod.rs:567-583 | one added key is counted, emitted and offered; the other logs stay |
| DiffReports.Accumulator.Removed | src/diff/mod.rs:585-601 | one removed key is counted, emitted and offered; the other logs stay |
| DiffReports.Accumulator.Changed | src/diff/mod.rs:603-625 | one changed row is counted, emitted and offered; the other logs stay |
| DiffReports.Accumulator.Emit | src/diff/mod.rs:627-650 | with a sink one record per event, in order, until the output limit, which is an error; fails for no reason but that limit and a refusal of the sink |
| DiffReports.Accumulator.Finish | src/diff/mod.rs:652-675 | counts are those of the logs, samples the smallest keys, truncated exactly when some total exceeds what is retained |
| DiffReports.ReportMeans | src/diff/mod.rs:652-675 | counts, sample sizes and truncation of a report in plain arithmetic; every sample is one of the events |
| DiffReports.SmallestAscend | src/diff/mod.rs:678-694 | retained keys ascend: a prefix first, otherwise the smaller byte at the first difference |
| DiffReports.RetainedPrecede | src/diff/mod.rs:678-722 | a retained key precedes, byte by byte, every key of its kind that was offered and not retained |
| Diff.CollectEntries | src/diff/mod.rs:303-364 | one side as a key map; success means no key repeats, and failure a repeated key or the budget |
| Diff.DiffInMemory | src/diff/mod.rs:232-301 | the in-memory diff reports added, removed and changed keys of the two key maps; it fails only over a repeated key or the budget |
| Diff.RowsCompared | src/diff/mod.rs:265-292 | looking up distinct after-rows one by one finds exactly the added and changed keys |
| Diff.DiffBalances | src/diff/mod.rs:652-675 | before + added = after + removed, and changed ≤ common keys |
| Diff.DiffDetermined | src/diff/mod.rs:652-675 | two reports of the same difference agree on every count and sampled key |
| Diff.ReportsEqual | src/diff/mod.rs:652-712 | and where no two changed rows share a display key, the reports are equal, changed columns included |
| Diff.AddedStandForKeys | src/diff/mod.rs:567-583 | a sampled added key is the display key of a key only after |
| Diff.RemovedStandForKeys | src/diff/mod.rs:585-601 | a sampled removed key is the display key of a key only before |
| Diff.ChangedStandForKeys | src/diff/mod.rs:603-625 | a sampled changed row names a key on both sides whose hashes differ, and its changed columns |
| Diff.ChangedColumnsInOrder | src/diff/mod.rs:603-625 | the changed columns are named in column order, exactly those whose values differ |
| Diff.AddedComeFirst | src/diff/mod.rs:678-722 | sampled added keys precede, byte by byte, those left out |
| Diff.RemovedComeFirst | src/diff/mod.rs:678-722 | and so do sampled removed keys |
| Diff.ChangedComeFirst | src/diff/mod.rs:678-722 | and sampled changed rows |
| DiffPartitions.PartitionRows | src/diff/mod.rs:366-448 | each of the sixty-four files holds the rows of its partition in order |
| DiffPartitions.FinishFiles | src/diff/mod.rs:439-447 | closing the writers yields the sixty-four files |
| DiffPartitions.ReadSides | src/diff/mod.rs:463-482 | a partition is read back as the rows written to it |
| DiffPartitions.ProcessPartition | src/diff/mod.rs:451-509 | one more partition is compared; its keys repeat on neither side |
| DiffPartitions.ComparePartitions | src/diff/mod.rs:182-195 | after all partitions, all keys of both sides are compared |
| DiffPartitions.DistinctParts | src/diff/mod.rs:808-813 | keys that repeat in no partition repeat nowhere |
| DiffPartitions.DiffPartitioned | src/diff/mod.rs:119-204 | the partitioned diff reports the difference of the two key maps, for any partition function into sixty-four buckets |
| DiffPartitions.BothPaths | src/diff/mod.rs:119-204 | whenever both paths succeed they report the same counts and sampled keys, entirely the same when display keys of changed rows are distinct, and rows balance |
| DiffRows.DiffKey | src/diff/mod.rs:764-784 | the key bytes of the key cells; an unsupported key cell is an error |
| DiffRows.RowHash | src/diff/mod.rs:786-801 | the digest of the marked, length-prefixed column encodings |
| DiffRows.CellLayout | src/diff/mod.rs:764-801 | a key cell stands behind its column and length, a row cell behind a presence byte and its length |
| DiffRows.KeptMeans | src/diff/mod.rs:786-801 | two cells are kept alike exactly when they are equal |
| DiffRows.EncodeRow | src/diff/mod.rs:331-349 | one row keyed and hashed; an error exactly when some cell cannot be encoded |
| DiffRows.KeyBytesInjective | src/diff/mod.rs:764-784 | two rows share a diff key exactly when their key cells are equal |
| DiffRows.RowHashDetermines | src/diff/mod.rs:786-801 | rows have equal hashes exactly when they are equal, where their preimages do not collide |
| DiffRows.KeyedMeans | src/diff/mod.rs:764-806 | rows meet under one key exactly when their key cells are equal, and count as changed exactly when they then differ |
| DiffDatasets.EncodeRows | src/diff/mod.rs:320-362 | a dataset keyed and hashed row by row; an error exactly when some cell cannot be encoded |
| DiffDatasets.KeysAreTuples | src/diff/mod.rs:764-784 | the keys of a side are exactly the encodings of its key tuples |
| DiffDatasets.ChangedAreTuples | src/diff/mod.rs:786-801 | the changed keys are exactly those of key tuples whose rows differ |
| DiffDatasets.DiffMeans | src/diff/mod.rs:232-301 | a report counts the key tuples only after, only before, and on both sides with different rows |
| DiffDatasets.DiffRowsOfDatasets | src/diff/mod.rs:119-204 | from the rows on, whichever path succeeds counts the difference of the two datasets, for any partition function; both agree |
| DiffDatasets.DifferenceMeans | src/diff/mod.rs:119-204 | row by row: rows after that agree with no row before on the key columns, rows before that agree with none after, and rows after that agree with a different row before |
| Ledger.ChargeBounds | src/diff/mod.rs:833-838 | a charge covers the need if that much remains, never exceeds what remains, and is at most the larger of need and one chunk |
| Ledger.ByteLedger.ReserveAdditional | src/diff/mod.rs:857-888 | succeeds exactly when the budget has room, unless the account refuses; accounts the bytes and never falls behind them |

Notes on reading the table: a method that modifies an object states the whole new abstract state; the
lemmas beside it say what that state means. `Summarizes`, `IsAntiJoin`, `IsIntersection`, `ReportOf`,
`IsDiff` and `Reports` are the specifications the algorithms are proved against.

## Left out

- RowRules.CheckGaps: the distance between two values is floating-point arithmetic (`src/execution/ordering.rs:156-163`) and enters as an arbitrary rule on pairs; so does what counts as too long a step.
- KeyRules.CheckReferenceRule: takes the types of corresponding key columns to match, which `types_match` checks before a scan and a cached scan skips; cells are equal here when type tag and raw bytes are, which for decimals of different scales is not equality of numbers.
- Merge.OpenMerge: runs are those this module wrote; for files changed by others only opening, draining and payload verification are stated.
- ExactState.ExactState.Insert: what a state holds after a call that failed (other than for a value of another kind) is not stated; the engine abandons it.
- ExactState.ExactState.Finish: the metrics of the summary (runs, spill bytes, compactions, peaks) are not modelled.
- Partition.MergeReports: assumes the counters of the whole dataset fit 64 bits, where the code saturates.
- DiffPartitions.ProcessPartition: the files of a partition are read to their end before rows are compared, where the code compares the after-rows as it reads them; success and result are the same.
- DiffPartitions.DiffPartitioned: the causes of a failed partitioned diff are not told apart; the estimate that chooses between the two paths and the comparison of the two schema signatures are not modelled.
- DiffRows.EncodeRow: the display key of a row is an arbitrary function of its key cells, and UTF-8 validity an arbitrary predicate on bytes.
- DiffReports.Accumulator.Added: emission to the output sink is a sequence of events up to the limit; file formats of the sink are not modelled.
- Decimal.ParseIsExact: white space is what `trim` removes at either end; only the characters of the literal matter after that, since every accepted character is a digit, a sign or the point.
- Resources.Accounting: memory and temporary space are two copies of the same protocol, and separate account trees do not touch each other; one copy of one tree is modelled.
- Metrics: peaks of a whole execution, spill bytes, compaction counts in reports and merge fan-in.
- Messages of findings: text for people that the code composes from the rule; one fixed text per kind stands for it here, while rule, column and row are modelled.
- Library containers: binary heap, stable sort, ordered map and binary search of the standard library are replaced by what they promise (a least element, a sorted arrangement, keys in order, a position that fits).
- Row-count deltas, sums, moments, balances, dominant values, row predicates and the per-type column kernels: one-line comparisons once their totals are known.
- Ranges on distinct counts, null counts and row counts: comparisons with constants; the ratio comparison behind them is `Fraction.ComparisonIsExact`.
- Contract parsing, plan digests, receipts, trust policies, signatures, evidence documents behind the digests, command line, Python bindings and reports for people.
- Temp directories, file system failures, fault injection and atomic renames.
- Arrow's columnar layout: a batch is a sequence of rows of typed cells; offsets, slices and null bitmaps are not modelled.
