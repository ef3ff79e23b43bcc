/** One round of the multi-stream test: after each streamMore call every partition's
    buffer is decoded into that partition's set of actual keys, with one running row
    count shared by all partitions; at the end the actual sets must equal the expected
    ones, no live tuple may be dirty, and the table must hold the expected number of
    rows (only the skipped partition's rows when the stream deletes what it exports). */
module MultiStream {
  import opened Wire
  import opened KeySets
  import opened RowStream
  import opened SnapshotChecks
  import opened Partitioning

  /** The actual sets and the running row count after decoding every partition's
      buffer, or the first partition whose buffer failed to decode and how. */
  datatype PartitionsOutcome =
    | PartitionsDecoded(actual: seq<set<Key>>, total: nat)
    | PartitionFailed(ipart: nat, failure: DecodeOutcome)

  /** Decode the buffers of partitions `from`, `from + 1`, ... in order; a buffer into
      which nothing was serialized is passed over. */
  function DecodeFrom(chunks: seq<Chunk>, width: nat, actual: seq<set<Key>>, total: nat, from: nat): (r: PartitionsOutcome)
    requires |chunks| == |actual| && from <= |chunks|
    ensures r.PartitionsDecoded? ==> |r.actual| == |actual|
    decreases |chunks| - from
  {
    if from == |chunks| then PartitionsDecoded(actual, total)
    else if chunks[from].serialized <= 0 then DecodeFrom(chunks, width, actual, total, from + 1)
    else
      match ReadKeys(chunks[from].buf, RowOffsets(chunks[from].serialized, width + LENGTH_PREFIX, FIRST_ROW_OFFSET),
                     actual[from], total)
      case Decoded(keys, n) => DecodeFrom(chunks, width, actual[from := keys], n, from + 1)
      case failure => PartitionFailed(from, failure)
  }

  /** The per-partition loop after one streamMore call. */
  method DecodePartitions(chunks: seq<Chunk>, width: nat, actual: seq<set<Key>>, total: nat)
    returns (r: PartitionsOutcome)
    requires |chunks| == |actual|
    ensures r == DecodeFrom(chunks, width, actual, total, 0)
  {
    var sets := actual;
    var totalInserted := total;
    var ipart := 0;
    while ipart < |chunks|
      invariant 0 <= ipart <= |chunks| && |sets| == |chunks|
      invariant DecodeFrom(chunks, width, actual, total, 0) == DecodeFrom(chunks, width, sets, totalInserted, ipart)
    {
      var chunk := chunks[ipart];
      if chunk.serialized > 0 {
        var decoded := DecodeChunk(chunk.buf, chunk.serialized, width, sets[ipart], totalInserted);
        if !decoded.Decoded? {
          return PartitionFailed(ipart, decoded);
        }
        sets := sets[ipart := decoded.keys];
        totalInserted := decoded.rows;
      }
      ipart := ipart + 1;
    }
    r := PartitionsDecoded(sets, totalInserted);
  }

  /** One buffer holding a well-formed stream of new, repetition-free rows. */
  lemma ChunkDecodes(c: Chunk, partitionId: int32, batch: seq<Row>, width: nat, seen: set<Key>, total: nat)
    requires ChunkHolds(c, partitionId, batch, width)
    requires Distinct(Keys(batch)) && DisjointFrom(Keys(batch), seen)
    ensures c.serialized > 0
    ensures ReadKeys(c.buf, RowOffsets(c.serialized, width + LENGTH_PREFIX, FIRST_ROW_OFFSET), seen, total)
      == Decoded(seen + Elements(Keys(batch)), total + |batch|)
  {
    var offs := RowOffsets(c.serialized, width + LENGTH_PREFIX, FIRST_ROW_OFFSET);
    StreamKeysInOrder(c.buf, c.serialized, partitionId, batch, width);
    ReadKeysInBounds(c.buf, offs, seen, total);
    InsertAllSucceeds(seen, total, Keys(batch));
    InsertAllContents(seen, total, Keys(batch));
  }

  /** `r` holds the old sets up to `from`, each later set grown by its stream's keys,
      and the row count grown by the number of rows from `from` on. */
  predicate DecodedInto(r: PartitionsOutcome, actual: seq<set<Key>>, batches: seq<seq<Row>>, total: nat, from: nat)
    requires |batches| == |actual| && from <= |actual|
  {
    && r.PartitionsDecoded?
    && |r.actual| == |actual|
    && (forall i :: 0 <= i < from ==> r.actual[i] == actual[i])
    && (forall i :: from <= i < |actual| ==> r.actual[i] == actual[i] + Elements(Keys(batches[i])))
    && r.total == total + |AllKeys(batches[from..])|
  }

  /** A buffer holding a well-formed stream of new, repetition-free rows moves the
      decoding on to the next partition with that stream's keys and rows added. */
  lemma ChunkStep(chunks: seq<Chunk>, partitionId: int32, batch: seq<Row>, width: nat,
                  actual: seq<set<Key>>, total: nat, from: nat)
    requires |chunks| == |actual| && from < |chunks|
    requires ChunkHolds(chunks[from], partitionId, batch, width)
    requires Distinct(Keys(batch)) && DisjointFrom(Keys(batch), actual[from])
    ensures DecodeFrom(chunks, width, actual, total, from)
      == DecodeFrom(chunks, width, actual[from := actual[from] + Elements(Keys(batch))], total + |batch|, from + 1)
  {
    ChunkDecodes(chunks[from], partitionId, batch, width, actual[from], total);
  }

  /** Buffers that each hold a well-formed stream of new, repetition-free rows decode
      into the old sets plus each stream's keys, counting every row once. */
  lemma {:induction false} DecodeFromWellFormed(chunks: seq<Chunk>, partitionIds: seq<int32>, batches: seq<seq<Row>>,
                                                width: nat, actual: seq<set<Key>>, total: nat, from: nat)
    requires |chunks| == |actual| == |batches| == |partitionIds| && from <= |chunks|
    requires forall i {:trigger ChunkHolds(chunks[i], partitionIds[i], batches[i], width)} ::
      from <= i < |chunks| ==> ChunkHolds(chunks[i], partitionIds[i], batches[i], width)
    requires forall i :: from <= i < |chunks| ==>
      Distinct(Keys(batches[i])) && DisjointFrom(Keys(batches[i]), actual[i])
    ensures DecodedInto(DecodeFrom(chunks, width, actual, total, from), actual, batches, total, from)
    decreases |chunks| - from
  {
    if from == |chunks| {
      assert batches[from..] == [];
    } else {
      var ks := Keys(batches[from]);
      var next := actual[from := actual[from] + Elements(ks)];
      var r := DecodeFrom(chunks, width, next, total + |ks|, from + 1);
      ChunkStep(chunks, partitionIds[from], batches[from], width, actual, total, from);
      forall i | from + 1 <= i < |chunks|
        ensures Distinct(Keys(batches[i])) && DisjointFrom(Keys(batches[i]), next[i])
      {
        assert next[i] == actual[i];
      }
      DecodeFromWellFormed(chunks, partitionIds, batches, width, next, total + |ks|, from + 1);
      DecodedIntoCons(r, actual, batches, total, from);
    }
  }

  /** Decoding partition `from` and then the rest is decoding from `from` on. */
  lemma DecodedIntoCons(r: PartitionsOutcome, actual: seq<set<Key>>, batches: seq<seq<Row>>, total: nat, from: nat)
    requires |batches| == |actual| && from < |actual|
    requires DecodedInto(r, actual[from := actual[from] + Elements(Keys(batches[from]))], batches,
                         total + |Keys(batches[from])|, from + 1)
    ensures DecodedInto(r, actual, batches, total, from)
  {
    var ks := Keys(batches[from]);
    var next := actual[from := actual[from] + Elements(ks)];
    assert batches[from..][1..] == batches[from + 1..];
    assert AllKeys(batches[from..]) == ks + AllKeys(batches[from + 1..]);
    forall i | 0 <= i < |actual|
      ensures i < from ==> r.actual[i] == actual[i]
      ensures i >= from ==> r.actual[i] == actual[i] + Elements(Keys(batches[i]))
    {
      if i != from {
        assert next[i] == actual[i];
      }
    }
  }

  /** One streamMore call of a round: a buffer per partition and the number of tuples
      the call reports as remaining. */
  datatype StreamCall = StreamCall(chunks: seq<Chunk>, remaining: int)

  /** Every call filled one buffer per partition. */
  predicate CallsFor(calls: seq<StreamCall>, nparts: nat)
  {
    forall c :: 0 <= c < |calls| ==> |calls[c].chunks| == nparts
  }

  /** The `while (remaining > 0)` loop of a round: decode each call's buffers into the
      actual sets, and call again while the last call reported tuples remaining (and
      recorded calls are left). */
  function DecodeRound(calls: seq<StreamCall>, width: nat, actual: seq<set<Key>>, total: nat, remaining: int): PartitionsOutcome
    requires CallsFor(calls, |actual|)
    decreases |calls|
  {
    if remaining <= 0 || calls == [] then PartitionsDecoded(actual, total)
    else
      match DecodeFrom(calls[0].chunks, width, actual, total, 0)
      case PartitionsDecoded(next, n) =>
        assert CallsFor(calls[1..], |next|) by {
          forall c | 0 <= c < |calls| - 1 ensures |calls[1..][c].chunks| == |next| {
            assert calls[1..][c] == calls[c + 1];
          }
        }
        DecodeRound(calls[1..], width, next, n, calls[0].remaining)
      case failure => failure
  }

  /** The round loop, starting from empty actual sets with `remaining` at the table's
      tuple count. */
  method DecodeStreamRound(calls: seq<StreamCall>, width: nat, nparts: nat, tupleCount: int)
    returns (r: PartitionsOutcome)
    requires CallsFor(calls, nparts)
    ensures r == DecodeRound(calls, width, EmptyBuckets(nparts), 0, tupleCount)
  {
    var actual := EmptyBuckets(nparts);
    var totalInserted := 0;
    var remaining := tupleCount;
    var i := 0;
    while remaining > 0 && i < |calls|
      invariant 0 <= i <= |calls| && |actual| == nparts
      invariant CallsFor(calls[i..], nparts)
      invariant DecodeRound(calls, width, EmptyBuckets(nparts), 0, tupleCount)
             == DecodeRound(calls[i..], width, actual, totalInserted, remaining)
      decreases |calls| - i
    {
      var decoded := DecodePartitions(calls[i].chunks, width, actual, totalInserted);
      if !decoded.PartitionsDecoded? {
        return decoded;
      }
      assert calls[i..][1..] == calls[i + 1..];
      actual, totalInserted, remaining := decoded.actual, decoded.total, calls[i].remaining;
      i := i + 1;
    }
    r := PartitionsDecoded(actual, totalInserted);
  }

  /** The keys streamed to partition i over a round's calls, in order. */
  function PartitionKeys(batches: seq<seq<seq<Row>>>, i: nat): seq<Key>
    decreases |batches|
  {
    if batches == [] then []
    else (if i < |batches[0]| then Keys(batches[0][i]) else []) + PartitionKeys(batches[1..], i)
  }

  /** `r` holds each old set grown by the keys streamed to that partition. */
  predicate RoundDecodedInto(r: PartitionsOutcome, actual: seq<set<Key>>, batches: seq<seq<seq<Row>>>)
  {
    && r.PartitionsDecoded?
    && |r.actual| == |actual|
    && forall i :: 0 <= i < |actual| ==> r.actual[i] == actual[i] + Elements(PartitionKeys(batches, i))
  }

  /** Decoding the first call and then the rest is decoding the whole round. */
  lemma RoundDecodedIntoCons(r: PartitionsOutcome, actual: seq<set<Key>>, mid: seq<set<Key>>, batches: seq<seq<seq<Row>>>)
    requires batches != [] && |batches[0]| == |actual| == |mid|
    requires forall i :: 0 <= i < |actual| ==> mid[i] == actual[i] + Elements(Keys(batches[0][i]))
    requires RoundDecodedInto(r, mid, batches[1..])
    ensures RoundDecodedInto(r, actual, batches)
  {
    forall i | 0 <= i < |actual|
      ensures r.actual[i] == actual[i] + Elements(PartitionKeys(batches, i))
    {
      ElementsAppend(Keys(batches[0][i]), PartitionKeys(batches[1..], i));
    }
  }

  /** The streams of a round's first call are new and repetition-free when all the
      keys streamed to their partitions are, and the later keys are new after them. */
  lemma FirstCallFresh(actual: seq<set<Key>>, batches: seq<seq<seq<Row>>>)
    requires batches != [] && |batches[0]| == |actual|
    requires forall i :: 0 <= i < |actual| ==>
      Distinct(PartitionKeys(batches, i)) && DisjointFrom(PartitionKeys(batches, i), actual[i])
    ensures forall i :: 0 <= i < |actual| ==>
      Distinct(Keys(batches[0][i])) && DisjointFrom(Keys(batches[0][i]), actual[i])
    ensures forall i :: 0 <= i < |actual| ==>
      && Distinct(PartitionKeys(batches[1..], i))
      && DisjointFrom(PartitionKeys(batches[1..], i), actual[i] + Elements(Keys(batches[0][i])))
  {
    forall i | 0 <= i < |actual|
      ensures Distinct(Keys(batches[0][i])) && DisjointFrom(Keys(batches[0][i]), actual[i])
      ensures Distinct(PartitionKeys(batches[1..], i))
      ensures DisjointFrom(PartitionKeys(batches[1..], i), actual[i] + Elements(Keys(batches[0][i])))
    {
      DistinctAppend(actual[i], Keys(batches[0][i]), PartitionKeys(batches[1..], i));
    }
  }

  /** A round whose every call filled each buffer with a well-formed stream, keeps
      calling until its recorded calls are used up, and never streams a key twice to a
      partition, decodes into each old set plus the keys streamed to its partition. */
  lemma {:induction false} DecodeRoundWellFormed(calls: seq<StreamCall>, partitionIds: seq<int32>,
                                                 batches: seq<seq<seq<Row>>>, width: nat,
                                                 actual: seq<set<Key>>, total: nat, remaining: int)
    requires CallsFor(calls, |actual|) && |batches| == |calls| && |partitionIds| == |actual|
    requires forall c :: 0 <= c < |calls| ==> |batches[c]| == |actual|
    requires forall c, i {:trigger ChunkHolds(calls[c].chunks[i], partitionIds[i], batches[c][i], width)} ::
      0 <= c < |calls| && 0 <= i < |actual| ==> ChunkHolds(calls[c].chunks[i], partitionIds[i], batches[c][i], width)
    requires forall i :: 0 <= i < |actual| ==>
      Distinct(PartitionKeys(batches, i)) && DisjointFrom(PartitionKeys(batches, i), actual[i])
    requires calls != [] ==> remaining > 0
    requires forall c :: 0 <= c < |calls| - 1 ==> calls[c].remaining > 0
    ensures RoundDecodedInto(DecodeRound(calls, width, actual, total, remaining), actual, batches)
    decreases |calls|
  {
    if calls == [] {
      forall i | 0 <= i < |actual| ensures actual[i] + Elements(PartitionKeys(batches, i)) == actual[i] {
        assert Elements(PartitionKeys(batches, i)) == {};
      }
    } else {
      var chunks := calls[0].chunks;
      FirstCallFresh(actual, batches);
      DecodeFromWellFormed(chunks, partitionIds, batches[0], width, actual, total, 0);
      var r0 := DecodeFrom(chunks, width, actual, total, 0);
      assert DecodedInto(r0, actual, batches[0], total, 0);
      var rest := calls[1..];
      assert DecodeRound(calls, width, actual, total, remaining)
          == DecodeRound(rest, width, r0.actual, r0.total, calls[0].remaining);
      forall c | 0 <= c < |rest| ensures rest[c] == calls[c + 1] && batches[1..][c] == batches[c + 1] {
      }
      DecodeRoundWellFormed(rest, partitionIds, batches[1..], width, r0.actual, r0.total, calls[0].remaining);
      RoundDecodedIntoCons(DecodeRound(rest, width, r0.actual, r0.total, calls[0].remaining), actual, r0.actual, batches);
    }
  }

  /** The round's verdict: the first failing assertion at the end of an iteration. */
  datatype StreamVerdict =
    | StreamsPassed
    | PartitionDiffers(ipart: nat)
    | DirtyAtEnd(key: Key)
    | RemainingMismatch(found: nat, expected: int)

  /** The end-of-iteration checks: every partition's actual set equals its expected set,
      no live tuple is dirty, and the table holds the skipped rows after a deleting
      stream and otherwise the live count the mutation counters predict. */
  method CheckPartitions(expected: seq<set<Key>>, actual: seq<set<Key>>, live: seq<LiveTuple>,
                         doDelete: bool, totalSkipped: nat, expectedLive: int)
    returns (v: StreamVerdict)
    requires |expected| == |actual|
    ensures v == StreamsPassed <==>
      && (forall i :: 0 <= i < |expected| ==> expected[i] == actual[i])
      && NoDirty(live)
      && |live| == (if doDelete then totalSkipped else expectedLive)
    ensures v.PartitionDiffers? ==>
      v.ipart < |expected| && expected[v.ipart] != actual[v.ipart]
      && forall j :: 0 <= j < v.ipart ==> expected[j] == actual[j]
    ensures v.DirtyAtEnd? ==>
      (forall i :: 0 <= i < |expected| ==> expected[i] == actual[i])
      && exists i :: 0 <= i < |live| && live[i].dirty && live[i].key == v.key && NoDirty(live[..i])
    ensures v.RemainingMismatch? ==>
      (forall i :: 0 <= i < |expected| ==> expected[i] == actual[i]) && NoDirty(live)
      && v.found == |live| && v.expected == (if doDelete then totalSkipped else expectedLive) != |live|
  {
    var ipart := 0;
    while ipart < |expected|
      invariant 0 <= ipart <= |expected|
      invariant forall j :: 0 <= j < ipart ==> expected[j] == actual[j]
    {
      if |expected[ipart]| != |actual[ipart]| || expected[ipart] != actual[ipart] {
        return PartitionDiffers(ipart);
      }
      ipart := ipart + 1;
    }
    var numTuples := 0;
    while numTuples < |live|
      invariant 0 <= numTuples <= |live|
      invariant NoDirty(live[..numTuples])
    {
      if live[numTuples].dirty {
        return DirtyAtEnd(live[numTuples].key);
      }
      assert live[..numTuples + 1] == live[..numTuples] + [live[numTuples]];
      numTuples := numTuples + 1;
    }
    assert live[..numTuples] == live;
    var wanted := if doDelete then totalSkipped else expectedLive;
    if numTuples != wanted {
      return RemainingMismatch(numTuples, wanted);
    }
    v := StreamsPassed;
  }

  /** When the streams of a round carry to each partition, once each, exactly the table
      rows its predicate selects, decoding every call of the round into empty sets
      yields the precalculated expected sets. */
  lemma RoundMatchesExpected(rows: seq<Key>, preds: seq<Predicate>, nparts: nat, skipped: int,
                             calls: seq<StreamCall>, partitionIds: seq<int32>, batches: seq<seq<seq<Row>>>,
                             width: nat, tupleCount: int)
    requires 0 < nparts < 0x8000_0000 && NonNegativeKeys(rows) && Distinct(rows)
    requires |preds| == |partitionIds| == nparts && CallsFor(calls, nparts) && |batches| == |calls|
    requires forall c :: 0 <= c < |calls| ==> |batches[c]| == nparts
    requires forall j :: 0 <= j < nparts ==>
      preds[j] == GeneratePredicate(nparts, if j == skipped then -1 else j)
    requires forall c, i {:trigger ChunkHolds(calls[c].chunks[i], partitionIds[i], batches[c][i], width)} ::
      0 <= c < |calls| && 0 <= i < nparts ==> ChunkHolds(calls[c].chunks[i], partitionIds[i], batches[c][i], width)
    requires forall i :: 0 <= i < nparts ==> Distinct(PartitionKeys(batches, i))
    requires forall i :: 0 <= i < nparts ==>
      Elements(PartitionKeys(batches, i)) == set k | k in Elements(rows) && Selects(preds[i], k)
    requires calls != [] ==> tupleCount > 0
    requires forall c :: 0 <= c < |calls| - 1 ==> calls[c].remaining > 0
    ensures DecodeRound(calls, width, EmptyBuckets(nparts), 0, tupleCount).PartitionsDecoded?
    ensures Bucketize(rows, nparts, skipped, EmptyBuckets(nparts), 0).Buckets?
    ensures DecodeRound(calls, width, EmptyBuckets(nparts), 0, tupleCount).actual
      == Bucketize(rows, nparts, skipped, EmptyBuckets(nparts), 0).expected
  {
    var empty := EmptyBuckets(nparts);
    DecodeRoundWellFormed(calls, partitionIds, batches, width, empty, 0, tupleCount);
    ExpectedPartitions(rows, nparts, skipped);
    var got := DecodeRound(calls, width, empty, 0, tupleCount).actual;
    var want := Bucketize(rows, nparts, skipped, empty, 0).expected;
    forall i | 0 <= i < nparts ensures got[i] == want[i] {
      forall k | k in Elements(rows) ensures Selects(preds[i], k) <==> k in want[i] {
        ExpectedIsSelected(rows, preds, nparts, skipped, k, i);
      }
      assert got[i] == Elements(PartitionKeys(batches, i));
    }
  }
}
