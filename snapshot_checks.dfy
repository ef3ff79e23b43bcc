/** What the snapshot tests do around streamMore: collect the key set of the live table
    before activation (getTableValueSet), drain the snapshot stream buffer by buffer
    into the set of exported keys, and finally check the table and the two sets
    (checkTuples). */
module SnapshotChecks {
  import opened Wire
  import opened KeySets
  import opened RowStream

  /** A tuple as the table iterator yields it: its key and its dirty flag. */
  datatype LiveTuple = LiveTuple(key: Key, dirty: bool)

  function TupleKeys(live: seq<LiveTuple>): (ks: seq<Key>)
    ensures |ks| == |live|
    ensures forall i :: 0 <= i < |live| ==> ks[i] == live[i].key
  {
    seq(|live|, i requires 0 <= i < |live| => live[i].key)
  }

  predicate NoDirty(live: seq<LiveTuple>)
  {
    forall i :: 0 <= i < |live| ==> !live[i].dirty
  }

  /** getTableValueSet: insert the key of every live tuple, asserting that each
      insertion added a new key. */
  method GetTableValueSet(live: seq<LiveTuple>, into: set<Key>) returns (r: InsertOutcome)
    ensures r == InsertAll(into, 0, TupleKeys(live))
    ensures r.AllInserted? <==> Distinct(TupleKeys(live)) && DisjointFrom(TupleKeys(live), into)
    ensures r.AllInserted? ==> r.keys == into + Elements(TupleKeys(live)) && |r.keys| == |into| + |live|
  {
    var keys := TupleKeys(live);
    var valueSet := into;
    var inserted := 0;
    var i := 0;
    while i < |live|
      invariant 0 <= i <= |live| && inserted == i
      invariant InsertAll(into, 0, keys) == InsertAll(valueSet, inserted, keys[i..])
    {
      assert keys[i..][1..] == keys[i + 1..];
      var key := live[i].key;
      if key in valueSet {
        r := Duplicate(key);
        InsertAllSucceeds(into, 0, keys);
        return;
      }
      valueSet := valueSet + {key};
      inserted := inserted + 1;
      i := i + 1;
    }
    r := AllInserted(valueSet, inserted);
    InsertAllSucceeds(into, 0, keys);
    InsertAllContents(into, 0, keys);
  }

  /** First assertion of checkTuples that fails, if any. */
  datatype CheckVerdict =
    | Passed
    | DirtyTuple(key: Key)
    | CountMismatch(found: nat, expected: nat)
    | SizeMismatch(original: nat, exported: nat)
    | SetMismatch

  /** checkTuples: no live tuple may be dirty; when tupleCount is non-zero the table must
      hold that many tuples; the exported set must equal the original set. */
  method CheckTuples(tupleCount: nat, original: set<Key>, exported: set<Key>, live: seq<LiveTuple>)
    returns (v: CheckVerdict)
    ensures v == Passed <==>
      NoDirty(live) && (tupleCount > 0 ==> |live| == tupleCount) && original == exported
    ensures v.DirtyTuple? ==>
      exists i :: 0 <= i < |live| && live[i].dirty && live[i].key == v.key && NoDirty(live[..i])
    ensures v.CountMismatch? ==> NoDirty(live) && v.found == |live| && v.expected == tupleCount != |live|
    ensures v.SizeMismatch? ==> v.original == |original| && v.exported == |exported| && v.original != v.exported
    ensures v.SetMismatch? ==> |original| == |exported| && original != exported
  {
    var numTuples := 0;
    while numTuples < |live|
      invariant 0 <= numTuples <= |live|
      invariant NoDirty(live[..numTuples])
    {
      if live[numTuples].dirty {
        return DirtyTuple(live[numTuples].key);
      }
      assert live[..numTuples + 1] == live[..numTuples] + [live[numTuples]];
      numTuples := numTuples + 1;
    }
    assert live[..numTuples] == live;
    if tupleCount > 0 && numTuples != tupleCount {
      return CountMismatch(numTuples, tupleCount);
    }
    if |original| != |exported| {
      return SizeMismatch(|original|, |exported|);
    }
    if original != exported {
      return SetMismatch;
    }
    v := Passed;
  }

  /** One streamMore result: the destination buffer and its position afterwards. */
  datatype Chunk = Chunk(buf: seq<byte>, serialized: int)

  /** The snapshot loop: decode buffers in order into one set, until a call serializes
      nothing (or the recorded calls run out). */
  function DrainChunks(chunks: seq<Chunk>, width: nat, seen: set<Key>, rows: nat): DecodeOutcome
    decreases |chunks|
  {
    if chunks == [] || chunks[0].serialized == 0 then Decoded(seen, rows)
    else
      match ReadKeys(chunks[0].buf, RowOffsets(chunks[0].serialized, width + LENGTH_PREFIX, FIRST_ROW_OFFSET), seen, rows)
      case Decoded(keys, n) => DrainChunks(chunks[1..], width, keys, n)
      case failure => failure
  }

  /** The `while (true)` loop of the snapshot tests around streamMore, with the results
      of the calls given in order. */
  method DrainSnapshot(chunks: seq<Chunk>, width: nat) returns (r: DecodeOutcome, calls: nat)
    ensures r == DrainChunks(chunks, width, {}, 0)
    ensures calls <= |chunks|
    ensures forall j :: 0 <= j < calls - 1 ==> chunks[j].serialized != 0
    ensures calls < |chunks| ==> 0 < calls && (chunks[calls - 1].serialized == 0 || !r.Decoded?)
    ensures 0 < calls && chunks[calls - 1].serialized == 0 ==> r.Decoded?
  {
    var exported: set<Key> := {};
    var totalInserted := 0;
    calls := 0;
    while calls < |chunks|
      invariant 0 <= calls <= |chunks|
      invariant forall j :: 0 <= j < calls ==> chunks[j].serialized != 0
      invariant DrainChunks(chunks, width, {}, 0) == DrainChunks(chunks[calls..], width, exported, totalInserted)
    {
      var chunk := chunks[calls];
      assert chunks[calls..][1..] == chunks[calls + 1..];
      calls := calls + 1;
      if chunk.serialized == 0 {
        return Decoded(exported, totalInserted), calls;
      }
      var decoded := DecodeChunk(chunk.buf, chunk.serialized, width, exported, totalInserted);
      if !decoded.Decoded? {
        return decoded, calls;
      }
      exported, totalInserted := decoded.keys, decoded.rows;
    }
    r := Decoded(exported, totalInserted);
  }

  /** The buffer begins with a complete stream of `rows` (possibly none), and
      `serialized` is that stream's length. */
  predicate ChunkHolds(c: Chunk, partitionId: int32, rows: seq<Row>, width: nat)
  {
    && 8 <= width < 0x8000_0000 && RowsOfWidth(rows, width) && |rows| < 0x8000_0000
    && c.serialized == |StreamBytes(partitionId, rows, width)| <= |c.buf|
    && c.buf[..c.serialized] == StreamBytes(partitionId, rows, width)
  }

  /** The keys of all batches of rows, in stream order. */
  function AllKeys(batches: seq<seq<Row>>): seq<Key>
    decreases |batches|
  {
    if batches == [] then [] else Keys(batches[0]) + AllKeys(batches[1..])
  }

  /** Inserting a concatenation is inserting the first part, then the second. */
  lemma {:induction false} InsertAllAppend(seen: set<Key>, count: nat, a: seq<Key>, b: seq<Key>)
    ensures InsertAll(seen, count, a + b) ==
      match InsertAll(seen, count, a)
      case AllInserted(s, n) => InsertAll(s, n, b)
      case failure => failure
    decreases |a|
  {
    if a != [] {
      assert (a + b)[0] == a[0] && (a + b)[1..] == a[1..] + b;
      InsertAllAppend(seen + {a[0]}, count + 1, a[1..], b);
    } else {
      assert a + b == b;
    }
  }

  /** Draining buffers that each hold a well-formed stream, followed by an empty buffer,
      is inserting the keys of all their rows one after the other. */
  lemma {:induction false} DrainWellFormed(chunks: seq<Chunk>, partitionId: int32, batches: seq<seq<Row>>,
                                           width: nat, seen: set<Key>, rows: nat)
    requires |chunks| == |batches| + 1 && chunks[|batches|].serialized == 0
    requires forall i :: 0 <= i < |batches| ==> ChunkHolds(chunks[i], partitionId, batches[i], width)
    ensures DrainChunks(chunks, width, seen, rows) == FromInsertOutcome(InsertAll(seen, rows, AllKeys(batches)))
    decreases |batches|
  {
    if batches == [] {
    } else {
      var c := chunks[0];
      assert ChunkHolds(c, partitionId, batches[0], width);
      assert c.serialized >= HEADER_SIZE;
      var offs := RowOffsets(c.serialized, width + LENGTH_PREFIX, FIRST_ROW_OFFSET);
      StreamKeysInOrder(c.buf, c.serialized, partitionId, batches[0], width);
      ReadKeysInBounds(c.buf, offs, seen, rows);
      InsertAllAppend(seen, rows, Keys(batches[0]), AllKeys(batches[1..]));
      match InsertAll(seen, rows, Keys(batches[0]))
      case AllInserted(s, n) => {
        DrainWellFormed(chunks[1..], partitionId, batches[1..], width, s, n);
      }
      case Duplicate(k) => {}
    }
  }

  /** The snapshot round's outcome on well-formed buffers: the exported set is the set of
      all streamed keys and the row count their number, exactly when no key was streamed
      twice. */
  lemma SnapshotExportsStreamedKeys(chunks: seq<Chunk>, partitionId: int32, batches: seq<seq<Row>>, width: nat)
    requires |chunks| == |batches| + 1 && chunks[|batches|].serialized == 0
    requires forall i :: 0 <= i < |batches| ==> ChunkHolds(chunks[i], partitionId, batches[i], width)
    ensures DrainChunks(chunks, width, {}, 0).Decoded? <==> Distinct(AllKeys(batches))
    ensures DrainChunks(chunks, width, {}, 0).Decoded? ==>
      DrainChunks(chunks, width, {}, 0).keys == Elements(AllKeys(batches))
      && DrainChunks(chunks, width, {}, 0).rows == |AllKeys(batches)|
    ensures !DrainChunks(chunks, width, {}, 0).ReadPastEnd?
  {
    DrainWellFormed(chunks, partitionId, batches, width, {}, 0);
    InsertAllSucceeds({}, 0, AllKeys(batches));
    if InsertAll({}, 0, AllKeys(batches)).AllInserted? {
      InsertAllContents({}, 0, AllKeys(batches));
    }
  }
}
