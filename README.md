# Copy-on-write snapshot test harness, modelled in Dafny

VoltDB's copy-on-write (COW) snapshot tests fill a persistent table with rows. Each row
has a unique primary key and a random value. The tests activate a snapshot stream and
call `streamMore` until the stream is exhausted, and between calls they mutate the table
and undo or release undo quanta. They then check that the snapshot exported exactly the
rows that were live at activation. A multi-stream variant splits the export among seven
partition predicates. An elastic-scanner variant checks that every row the scan returned,
and every initial row, can be accounted for.

The engine, the table, the COW iterator, the output streams, the elastic scanner and the
undo log are not part of this model. Their behaviour appears only as the predicates that
the harness asserts and as the parameters through which their results reach the harness.

This project models what the harness itself computes:

- `Wire`: the byte layout of a destination buffer.
  - A header `[partitionId:4][rowCount:4]`, then rows `[length:4][tuple]`.
  - Every 32-bit field is big-endian.
  - A row's first eight tuple bytes are its key: the primary key and the value.
  - It also has an encoder of that layout, which the decoder's lemmas use.
- `KeySets`: the "insert and assert the insertion added a key" loop that every key set is built with.
- `RowStream`: the decode loop over one buffer.
  - It is proved to visit offsets 12 + i·(w+4).
  - It is proved to read exactly the rows' keys, in order and inside the serialized bytes.
  - It is proved to fail exactly when a key repeats.
- `SnapshotChecks`: the pre-activation key set (`getTableValueSet`), the drain loop around `streamMore`, and `checkTuples`.
- `UndoBookkeeping`: the mutation and undo helpers, as a class.
  - Its fields are the counters, the table's key set and the key set at the start of the undo quantum.
  - It keeps the invariant that the counters account for the table.
- `Partitioning`: the partition predicate and the expected-partition bucketing.
  - The predicate is an INTEGER expression tree; its modulus is written with division, multiplication and subtraction.
- `MultiStream`: per-partition decoding after each call, the round of calls, and the end-of-iteration checks.
- `TupleFlags`: the active and dirty header flags and the flag test.
- `BufferBoundary`: the sizing arithmetic of the buffer-boundary test.
- `ElasticChecks`: the two containment checks that close the elastic scanner test.

Randomness (`rand()`) becomes parameters:
- the undo or mutation choice;
- the random value;
- the tuple `getRandomTuple` found, or none.

What the hidden engine hands back also becomes parameters: the buffer and its position after each `streamMore` call, the live tuples and their dirty flags, and the values the scanner returned.

## Model

| member | source | states |
|---|---|---|
| Wire.ReadInt32Bytes | tests/ee/storage/CopyOnWriteTest.cpp:479-480 | ntohl of the four big-endian bytes written for an int32 gives that int32 back, wherever they sit in a buffer |
| Wire.StreamBytes | tests/ee/storage/CopyOnWriteTest.cpp:476 | a stream of K rows of width w is 8 + K·(w+4) bytes long: the header, then per row a length prefix and a tuple |
| KeySets.DistinctCardinality | tests/ee/storage/CopyOnWriteTest.cpp:96 | a repetition-free key sequence collects into a set of the same size |
| KeySets.ElementsSnoc | tests/ee/storage/CopyOnWriteTest.cpp:212-214 | recording one more key adds exactly that key to the recorded set |
| KeySets.ElementsAppend | tests/ee/storage/CopyOnWriteTest.cpp:912-940 | the keys recorded from two consecutive streams are the keys of each, collected together |
| KeySets.DistinctAppend | tests/ee/storage/CopyOnWriteTest.cpp:912-940 | when the keys of two consecutive streams are distinct and new, so is the first, and the second is new after the first is collected |
| KeySets.InsertAllSucceeds | tests/ee/storage/CopyOnWriteTest.cpp:481-485 | inserting keys one by one with an asserted insertion succeeds if and only if no key repeats and none was already collected |
| KeySets.InsertAllContents | tests/ee/storage/CopyOnWriteTest.cpp:481-486 | after success the set is the old set plus the keys, and one insertion was counted per key |
| KeySets.InsertAllReportsRepeat | tests/ee/storage/CopyOnWriteTest.cpp:481-485 | a failed run names a key that was already collected or occurred earlier in the sequence |
| RowStream.DecodeChunk | tests/ee/storage/CopyOnWriteTest.cpp:476-489 | the decode loop from offset 12 with stride w+4 while the offset is below serialized-4 yields the fold of insert-and-check over exactly those offsets (also lines 541-554 and 607-620) |
| RowStream.OffsetsInsideSerialized | tests/ee/storage/CopyOnWriteTest.cpp:477 | every visited offset is at least the start offset and lies more than four bytes before the end of the serialized bytes, which is the loop guard |
| RowStream.OffsetsOfRows | tests/ee/storage/CopyOnWriteTest.cpp:476-488 | over m whole rows the loop visits exactly m offsets, the i-th at first + i·step |
| RowStream.FirstRow | tests/ee/storage/CopyOnWriteTest.cpp:479-480 | the key read at an offset is the key of the row whose length prefix sits just before it |
| RowStream.RowsAt | tests/ee/storage/CopyOnWriteTest.cpp:476-488 | over bytes that encode rows rs, the visited offsets read the keys of rs in order, each inside the serialized bytes |
| RowStream.StreamKeysInOrder | tests/ee/storage/CopyOnWriteTest.cpp:476-488 | in a well-formed stream of K rows, row i is read at 12 + i·(w+4), every read stays inside serialized, and the keys read are the rows' keys in stream order |
| RowStream.ReadKeysInBounds | tests/ee/storage/CopyOnWriteTest.cpp:477-486 | when every read is in the buffer, decoding is exactly the insertion loop over the keys read |
| RowStream.DecodeStream | tests/ee/storage/CopyOnWriteTest.cpp:476-489 | round trip: decoding an encoded stream of K rows never reads past the end, succeeds if and only if no key repeats, and then adds exactly the K keys and counts K rows; a failure names a repeated key |
| RowStream.DecodeWellFormedChunk | tests/ee/storage/CopyOnWriteTest.cpp:476-489 | the loop on a fully written buffer returns the set of the rows' keys and their number exactly when the keys are distinct |
| RowStream.SizeT | tests/ee/storage/CopyOnWriteTest.cpp:920 | converting a C++ int to size_t maps it below 2^64: a value already in range is kept and a negative int wraps to itself plus 2^64 |
| RowStream.MultiStreamGuardAdmitsShortBuffer | tests/ee/storage/CopyOnWriteTest.cpp:919-920 | the size_t guard as written admits a read at offset 12 when 2 bytes were serialized, where the signed guard admits none |
| RowStream.MultiStreamGuardAgrees | tests/ee/storage/CopyOnWriteTest.cpp:919-920 | from 4 serialized bytes on, the size_t guard and the signed guard agree |
| SnapshotChecks.GetTableValueSet | tests/ee/storage/CopyOnWriteTest.cpp:357-370 | collecting the live tuples' keys succeeds if and only if they are distinct and new, and then the set gains exactly those keys (also the inline copies at lines 511-522 and 576-587) |
| SnapshotChecks.CheckTuples | tests/ee/storage/CopyOnWriteTest.cpp:318-355 | the check passes if and only if no live tuple is dirty, the live count equals tupleCount when tupleCount is non-zero, and the exported set equals the original set; each failure names the first failing assertion |
| SnapshotChecks.DrainSnapshot | tests/ee/storage/CopyOnWriteTest.cpp:464-493 | the streamMore loop decodes each buffer in order into one set and one row count; every call before the last had something serialized, and the loop ended on the first buffer with nothing serialized (after which decoding has succeeded), on a decode failure, or when the recorded buffers ran out |
| SnapshotChecks.InsertAllAppend | tests/ee/storage/CopyOnWriteTest.cpp:481-486 | inserting a concatenation is inserting the first part, then the second |
| SnapshotChecks.DrainWellFormed | tests/ee/storage/CopyOnWriteTest.cpp:464-493 | draining well-formed buffers followed by an empty one is inserting the keys of all their rows in stream order |
| SnapshotChecks.SnapshotExportsStreamedKeys | tests/ee/storage/CopyOnWriteTest.cpp:464-495 | a snapshot round over well-formed buffers exports exactly the set of all streamed keys and counts them, if and only if no key was streamed twice, and never reads past a buffer |
| UndoBookkeeping.FreshKeysExtend | tests/ee/storage/CopyOnWriteTest.cpp:204-209 | keys drawn from the primary-key counter are distinct, new to the table, and keep primary keys unique and below the counter |
| UndoBookkeeping.DrawKeys | tests/ee/storage/CopyOnWriteTest.cpp:204-217 | the insertion loop adds one tuple per value with consecutive primary keys |
| UndoBookkeeping.MutationHarness.constructor | tests/ee/storage/CopyOnWriteTest.cpp:108-169 | the fixture starts with zeroed counters and undo token 0; merged with each test's first `addRandomUniqueTuples(m_table, tupleCount)` (lines 449, 502, 568, 819, 1029), it loads tupleCount tuples with consecutive primary keys and satisfies the bookkeeping invariant |
| UndoBookkeeping.MutationHarness.AddRandomUniqueTuples | tests/ee/storage/CopyOnWriteTest.cpp:202-217 | the table gains exactly the fresh keys, the primary-key counter advances by their number, and no counter moves |
| UndoBookkeeping.MutationHarness.RandomUndo | tests/ee/storage/CopyOnWriteTest.cpp:218-245 | undo subtracts exactly the inserts and deletes counted since the quantum began and restores the table; release keeps the totals; both zero the per-quantum counters, advance the token by 1, and keep the invariant |
| UndoBookkeeping.MutationHarness.RandomDelete | tests/ee/storage/CopyOnWriteTest.cpp:247-257 | a delete removes the found tuple and is counted only when a tuple was found |
| UndoBookkeeping.MutationHarness.RandomInsert | tests/ee/storage/CopyOnWriteTest.cpp:259-263 | an insert adds one new key and is always counted |
| UndoBookkeeping.MutationHarness.RandomUpdate | tests/ee/storage/CopyOnWriteTest.cpp:265-281 | an update replaces the found tuple by one with the same primary key and the new column-1 value, keeps the row count, and moves only the update counter |
| UndoBookkeeping.MutationHarness.RandomTableMutation | tests/ee/storage/CopyOnWriteTest.cpp:283-314 | the chosen mutation happens and only its counters move: a delete of a found tuple removes it and counts one delete, an insert adds the key (counter, value) and counts one insert, an update of a found tuple swaps its value and counts one update, and with no tuple found nothing changes; only an insert advances the primary-key counter; the bookkeeping invariant and the undo quantum are kept |
| UndoBookkeeping.MutationHarness.UndoEverything | tests/ee/storage/CopyOnWriteTest.cpp:624-626 | undoing the quantum restores the table at the quantum start and advances the token, leaving all counters as they were |
| UndoBookkeeping.MutationHarness.ExpectedLiveCount | tests/ee/storage/CopyOnWriteTest.cpp:495 | tupleCount + inserted - deleted is the number of live rows (also lines 561 and 1007) |
| Partitioning.TruncDiv | tests/ee/storage/CopyOnWriteTest.cpp:784-786 | INTEGER division truncates toward zero: the remainder a - q·b is smaller than b in magnitude and is zero or has the dividend's sign, q·b lies between 0 and a, and on non-negative operands it is floor division |
| Partitioning.TruncRem | tests/ee/storage/CopyOnWriteTest.cpp:769-771 | `v - (v/n)*n` takes the dividend's sign, is smaller than n in magnitude, and equals `v % n` for non-negative v and positive n |
| Partitioning.EvalInt | tests/ee/storage/CopyOnWriteTest.cpp:756-767 | an arithmetic node evaluates only to INTEGER-range values |
| Partitioning.PredicateIsRemainder | tests/ee/storage/CopyOnWriteTest.cpp:769-795 | the predicate tree `GeneratePredicate` builds as generatePredicateString does evaluates, on every INTEGER value and without overflow, to `value % nparts == ipart` with C++'s truncating remainder |
| Partitioning.PredicateSelectsResidue | tests/ee/storage/CopyOnWriteTest.cpp:769-791 | for v ≥ 0, predicate i holds exactly when v % n == i, and the target -1 holds for no v |
| Partitioning.PredicateTargets | tests/ee/storage/CopyOnWriteTest.cpp:843-852 | predicate i targets partition i, except the skipped partition, which targets -1 |
| Partitioning.TargetsPartitionKeys | tests/ee/storage/CopyOnWriteTest.cpp:836-852 | a non-negative key is selected by the predicate of its residue and by no other, and by none when it belongs to the skipped partition |
| Partitioning.PartitionOf | tests/ee/storage/CopyOnWriteTest.cpp:870 | a key's expected partition is a valid partition index |
| Partitioning.ExpectedBuckets | tests/ee/storage/CopyOnWriteTest.cpp:864-882 | the bucketing loop over the table's rows computes the row-by-row bucketing fold |
| Partitioning.InPartitionCons | tests/ee/storage/CopyOnWriteTest.cpp:870 | a partition's rows are the first row (if of that residue) plus the rest's |
| Partitioning.CountIsSize | tests/ee/storage/CopyOnWriteTest.cpp:879-881 | over distinct rows the number of rows of a residue is the size of their set |
| Partitioning.BucketizeSucceeds | tests/ee/storage/CopyOnWriteTest.cpp:871-878 | over distinct rows the duplicate-key assertion never fails |
| Partitioning.BucketizeContents | tests/ee/storage/CopyOnWriteTest.cpp:868-882 | set p gains exactly the rows of residue p, except the skipped partition, whose rows are only counted |
| Partitioning.ExpectedPartitions | tests/ee/storage/CopyOnWriteTest.cpp:864-882 | over the table's rows, expected[p] is exactly the rows of residue p, the skipped set stays empty, and totalSkipped is the number of skipped rows |
| Partitioning.ExpectedDisjoint | tests/ee/storage/CopyOnWriteTest.cpp:868-882 | the expected sets of two different partitions are disjoint |
| Partitioning.SumSizesUpdate | tests/ee/storage/CopyOnWriteTest.cpp:873 | replacing one expected set changes the total size by the difference |
| Partitioning.BucketizeConserves | tests/ee/storage/CopyOnWriteTest.cpp:868-882 | each row adds exactly one to the total of set sizes and skip count |
| Partitioning.RowsAccountedFor | tests/ee/storage/CopyOnWriteTest.cpp:868-882 | the sizes of the expected sets plus totalSkipped equal the table's row count |
| Partitioning.EmptySum | tests/ee/storage/CopyOnWriteTest.cpp:833 | empty expected sets have total size 0 |
| Partitioning.ExpectedIsSelected | tests/ee/storage/CopyOnWriteTest.cpp:843-882 | a table row is in expected[i] exactly when predicate i selects it |
| Partitioning.DeleteLeavesSkipped | tests/ee/storage/CopyOnWriteTest.cpp:1003-1004 | the rows no predicate selects are the skipped partition's rows, and there are totalSkipped of them |
| MultiStream.DecodePartitions | tests/ee/storage/CopyOnWriteTest.cpp:912-940 | the per-partition loop decodes each buffer with something serialized into that partition's set, sharing one row count |
| MultiStream.ChunkDecodes | tests/ee/storage/CopyOnWriteTest.cpp:917-937 | one well-formed buffer of new distinct rows adds exactly their keys and count |
| MultiStream.DecodeFromWellFormed | tests/ee/storage/CopyOnWriteTest.cpp:912-940 | well-formed buffers of new distinct rows decode into each partition's old set plus its stream's keys, and every row is counted once |
| MultiStream.DecodeStreamRound | tests/ee/storage/CopyOnWriteTest.cpp:893-951 | the `while (remaining > 0)` loop decodes each call's buffers into the same sets and row count and calls again while the last call reported tuples remaining |
| MultiStream.DecodeRoundWellFormed | tests/ee/storage/CopyOnWriteTest.cpp:893-951 | a round of well-formed buffers, with no key streamed twice to a partition, decodes into each old set plus every key streamed to that partition over all the calls |
| MultiStream.CheckPartitions | tests/ee/storage/CopyOnWriteTest.cpp:953-1009 | the end checks pass if and only if every actual set equals its expected set, no live tuple is dirty, and the row count is totalSkipped after a deleting stream and the counters' prediction otherwise |
| MultiStream.RoundMatchesExpected | tests/ee/storage/CopyOnWriteTest.cpp:864-951 | when each partition's streams over the round carry, once each, exactly the rows its predicate selects, the round decodes into exactly the precalculated expected sets |
| TupleFlags.Mask | tests/ee/storage/CopyOnWriteTest.cpp:426-444 | a flag occupies exactly one bit of the header byte |
| TupleFlags.SetFlagReadsBack | tests/ee/storage/CopyOnWriteTest.cpp:431-443 | a flag reads back as it was set or cleared |
| TupleFlags.SetFlagKeepsOthers | tests/ee/storage/CopyOnWriteTest.cpp:431-443 | setting or clearing one flag never changes another |
| TupleFlags.MasksDisjoint | tests/ee/storage/CopyOnWriteTest.cpp:426-444 | different flags occupy different bits |
| TupleFlags.FlagTest | tests/ee/storage/CopyOnWriteTest.cpp:426-444 | the flag test passes on any initial header exactly when active and dirty are different bits |
| BufferBoundary.BoundaryBufferFits | tests/ee/storage/CopyOnWriteTest.cpp:1024-1025 | the buffer holds the header and K length-prefixed rows with exactly 4 bytes to spare, and a stream of K+1 rows would not fit |
| BufferBoundary.BoundaryTestBuffer | tests/ee/storage/CopyOnWriteTest.cpp:1023-1025 | with the test's three tuples, the buffer of 12 + (w+4)·3 bytes holds their stream with four bytes to spare and has no room for a fourth |
| ElasticChecks.Unaccounted | tests/ee/storage/CopyOnWriteTest.cpp:1163-1171 | the missing set collected value by value is exactly the values not found in any covering set |
| ElasticChecks.ElasticCheck | tests/ee/storage/CopyOnWriteTest.cpp:1163-1209 | the checks pass if and only if returns ⊆ initial ∪ inserts ∪ updateTargets and initial ⊆ returns ∪ deletes ∪ updateSources ∪ shuffles; a failure reports exactly the unaccounted values |

## Left out

- The engine and its parts are not part of this model, and nothing about their algorithms is modelled: `VoltDBEngine`, `PersistentTable`, `CopyOnWriteIterator`, `ElasticScanner`, `TupleOutputStreamProcessor`, `DefaultTupleSerializer` and the undo log. Their results reach the model as parameters: buffers and positions, live tuples, scanner returns, and the tuple `getRandomTuple` finds.
- The COW-iterator test (lines 395-424) is not modelled. It compares the addresses yielded by two hidden iterators.
- JSON text generation (`json_spirit`), `printf`/`cerr` diagnostics, the error formatting of the test tool, and memory management are not modelled. The predicate is modelled as the expression tree the JSON encodes.
- Keys are modelled as (int32, int32) pairs, not as the host-endian `int64` reinterpretation of the two columns. The pair is injective in the same way, so set behaviour is the same.
- The decoder does not read the row-length field or the header's row count. The model reads neither; the encoder writes both.
- The elastic test's mutate/scan schedule (lines 1107-1150) is not modelled. It is a test artefact driven by unsigned wrap-around and by the hidden scanner. So are the stray-tuple catcher and the forced compaction. Only the closing containment checks are modelled, over the recorded sets.
- The counters are modelled as unbounded integers. The source's `int32_t` counters cannot overflow at the test's sizes.
- UndoBookkeeping.MutationHarness.AddRandomUniqueTuples: the insertion is assumed to succeed, because the primary key is always fresh. The source's early return on a failed `insertTuple` is not modelled. Likewise, `doRandomInsert` counts an insert even if that insertion failed.
- UndoBookkeeping.MutationHarness.RandomInsert: it requires the primary-key counter to be below 2^31. The source's `int32` counter would overflow past that, and the tests never come close.
- UndoBookkeeping.MutationHarness.UndoEverything: the source leaves the counters stale after the undo. The model therefore promises only that the table invariant is kept, not the counting invariant; that test passes expected count 0 to skip the count check.
- Partitioning.EvalInt: only the nodes the generated predicate uses are modelled (tuple value, constant, minus, multiply, divide, compare-equal). INTEGER overflow and division by zero yield no value; the engine would raise an error there.
- Partitioning.ExpectedBuckets: it requires non-negative primary keys. For a negative key the source's remainder is negative and would index outside `expected[]`. Every key the tests generate is non-negative.
- MultiStream.DecodePartitions: it decodes with the signed guard `ii < serialized - 4` of lines 477 and 542, not with line 920's size_t comparison. Under the size_t guard the loop would read past a buffer of 1 to 3 serialized bytes; `RowStream.MultiStreamGuard` models that guard as written, and the Findings row below shows where the two differ.
- The table mutations between the calls of a multi-stream round (lines 945-950) act on the hidden table. They reach the model only through the next call's buffers; the mutation helpers themselves are modelled in `UndoBookkeeping`.
- The boundary test's closing assertions (lines 1040-1048) compare what the hidden engine returns: the remaining count, the returned positions and the not-pending block count. Only the buffer sizing arithmetic is modelled.
- The `remaining >= 0` guard around the position-count assertion after each `streamMore` call is not modelled. The check compares two outputs of the hidden stream processor.

## Findings

| source | as written | input that shows it | evidently intended | confidence | as-written member | corrected member |
|---|---|---|---|---|---|---|
| tests/ee/storage/CopyOnWriteTest.cpp:920 | `ibuf < (serialized - sizeof(int32_t))` compares as size_t, so for 0 < serialized < 4 the right side wraps to nearly 2^64 | serialized = 2: the guard admits a read at offset 12, past the 2 serialized bytes | the signed comparison `ibuf < serialized - 4` of the other decode loops (lines 477, 542), under which no offset is visited | low; a stream never serializes 1 to 3 bytes; not executed | RowStream.MultiStreamGuardAdmitsShortBuffer | RowStream.OffsetsInsideSerialized |
