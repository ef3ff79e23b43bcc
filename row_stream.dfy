/** The loop with which the snapshot tests decode one destination buffer after a
    streamMore call: start at offset 12 (past the partition id, the row count and the
    first row's length prefix), read two big-endian int32s as the row key, record it in
    the set of exported keys, and step over the tuple and the next length prefix, as
    long as the offset is below serialized - 4. */
module RowStream {
  import opened Wire
  import opened KeySets

  /** partitionId, rowCount and the first row's length prefix are skipped. */
  const FIRST_ROW_OFFSET: nat := HEADER_SIZE + LENGTH_PREFIX

  /** The offsets the decode loop visits from `ii` on, for a buffer holding
      `serialized` bytes and a stride of `step` bytes per row. */
  function RowOffsets(serialized: int, step: nat, ii: int): seq<int>
    requires step > 0
    decreases serialized - ii
  {
    if ii < serialized - 4 then [ii] + RowOffsets(serialized, step, ii + step) else []
  }

  /** The key read at offset `at`: two ntohl reads. */
  function KeyAt(buf: seq<byte>, at: nat): Key
    requires at + 8 <= |buf|
  {
    Key(ReadInt32(buf, at), ReadInt32(buf, at + 4))
  }

  /** Every offset names eight bytes inside the buffer. */
  predicate InBuffer(buf: seq<byte>, offs: seq<int>)
  {
    forall i :: 0 <= i < |offs| ==> 0 <= offs[i] && offs[i] + 8 <= |buf|
  }

  function KeysAt(buf: seq<byte>, offs: seq<int>): (ks: seq<Key>)
    requires InBuffer(buf, offs)
    ensures |ks| == |offs|
    ensures forall i :: 0 <= i < |offs| ==> ks[i] == KeyAt(buf, offs[i])
  {
    seq(|offs|, i requires 0 <= i < |offs| => KeyAt(buf, offs[i]))
  }

  /** What decoding buffers yields: the exported keys so far and the number of rows
      read, or the first key read twice, or an offset whose key lies beyond the buffer. */
  datatype DecodeOutcome = Decoded(keys: set<Key>, rows: nat) | DuplicateRow(key: Key) | ReadPastEnd(at: int)

  /** Read the key at each offset in turn and insert it into `seen`. */
  function ReadKeys(buf: seq<byte>, offs: seq<int>, seen: set<Key>, rows: nat): DecodeOutcome
    decreases |offs|
  {
    if offs == [] then Decoded(seen, rows)
    else if !(0 <= offs[0] && offs[0] + 8 <= |buf|) then ReadPastEnd(offs[0])
    else if KeyAt(buf, offs[0]) in seen then DuplicateRow(KeyAt(buf, offs[0]))
    else ReadKeys(buf, offs[1..], seen + {KeyAt(buf, offs[0])}, rows + 1)
  }

  function FromInsertOutcome(r: InsertOutcome): DecodeOutcome
  {
    match r
    case AllInserted(keys, count) => Decoded(keys, count)
    case Duplicate(k) => DuplicateRow(k)
  }

  /** The decode loop over one buffer. `seen` is the set of keys exported by earlier
      calls and `rows` the running count of decoded rows; the loop inserts into them. */
  method DecodeChunk(buf: seq<byte>, serialized: int, width: nat, seen: set<Key>, rows: nat)
    returns (r: DecodeOutcome)
    ensures r == ReadKeys(buf, RowOffsets(serialized, width + LENGTH_PREFIX, FIRST_ROW_OFFSET), seen, rows)
  {
    var step := width + LENGTH_PREFIX;
    var exported := seen;
    var total := rows;
    var ii: int := FIRST_ROW_OFFSET;
    while ii < serialized - 4
      invariant ii >= FIRST_ROW_OFFSET
      invariant ReadKeys(buf, RowOffsets(serialized, step, FIRST_ROW_OFFSET), seen, rows)
             == ReadKeys(buf, RowOffsets(serialized, step, ii), exported, total)
      decreases serialized - ii
    {
      if ii + 8 > |buf| {
        return ReadPastEnd(ii);
      }
      var key := Key(ReadInt32(buf, ii), ReadInt32(buf, ii + 4));
      if key in exported {
        return DuplicateRow(key);
      }
      exported := exported + {key};
      total := total + 1;
      ii := ii + step;
    }
    r := Decoded(exported, total);
  }

  /** Every offset the loop visits is at least the start offset and lies more than
      four bytes before the end of the serialized bytes: the loop guard. (That a whole
      key fits is a property of well-formed streams; see `StreamKeysInOrder`.) */
  lemma {:induction false} OffsetsInsideSerialized(serialized: int, step: nat, ii: int)
    requires step > 0
    ensures forall i :: 0 <= i < |RowOffsets(serialized, step, ii)| ==>
      ii <= RowOffsets(serialized, step, ii)[i] && RowOffsets(serialized, step, ii)[i] + 4 < serialized
    decreases serialized - ii
  {
    if ii < serialized - 4 {
      OffsetsInsideSerialized(serialized, step, ii + step);
    }
  }

  /** The offsets are first, first + step, first + 2 * step, ... (k of them). */
  predicate Strided(offs: seq<int>, first: int, step: nat, k: nat)
  {
    |offs| == k && forall i :: 0 <= i < k ==> offs[i] == first + i * step
  }

  /** Reading at the offsets yields the keys of rs in order, each read inside the
      first `serialized` bytes of the buffer. */
  predicate ReadsRows(buf: seq<byte>, serialized: int, offs: seq<int>, rs: seq<Row>)
  {
    && serialized <= |buf|
    && |offs| == |rs|
    && forall i :: 0 <= i < |offs| ==>
         0 <= offs[i] && offs[i] + 8 <= serialized && KeyAt(buf, offs[i]) == rs[i].key
  }

  /** In a buffer whose rows of `step` bytes start at ii - 4 and fill `m` strides, the
      loop visits exactly m offsets, the i-th at ii + i * step. */
  lemma {:induction false} OffsetsOfRows(ii: int, m: nat, step: nat)
    requires step > 8
    ensures Strided(RowOffsets(ii - 4 + m * step, step, ii), ii, step, m)
    decreases m
  {
    var serialized := ii - 4 + m * step;
    if m > 0 {
      assert m * step == (m - 1) * step + step;
      assert (m - 1) * step >= 0;
      assert ii < serialized - 4;
      assert serialized == (ii + step) - 4 + (m - 1) * step;
      OffsetsOfRows(ii + step, m - 1, step);
      var offs := RowOffsets(serialized, step, ii);
      var rest := RowOffsets(serialized, step, ii + step);
      assert offs == [ii] + rest;
      forall i | 0 <= i < m ensures offs[i] == ii + i * step {
        if i > 0 {
          assert offs[i] == rest[i - 1];
          assert (i - 1) * step + step == i * step;
        }
      }
    }
  }

  /** The four bytes at `at` of a byte sequence sitting at `start` in the buffer. */
  lemma SliceWithin(buf: seq<byte>, start: int, end: int, part: seq<byte>, at: int, bs: seq<byte>)
    requires 0 <= start <= end <= |buf| && buf[start..end] == part
    requires 0 <= at && at + 4 <= |part| && part[at..at + 4] == bs
    ensures buf[start + at..start + at + 4] == bs
  {
    forall k | 0 <= k < 4 ensures buf[start + at..start + at + 4][k] == bs[k] {
      assert buf[start + at + k] == buf[start..end][at + k] == part[at + k];
    }
  }

  /** The first row of a byte range starting at ii - 4: its key is read at ii and the
      rest of the range starts one stride further. */
  lemma FirstRow(buf: seq<byte>, serialized: int, width: nat, ii: int, r: Row, rest: seq<byte>)
    requires 8 <= width < 0x8000_0000 && |r.filler| == width - 8
    requires 4 <= ii && ii - 4 <= serialized <= |buf|
    requires buf[ii - 4..serialized] == RowBytes(r, width) + rest
    ensures ii + 8 <= serialized && KeyAt(buf, ii) == r.key
    ensures buf[ii - 4 + width + LENGTH_PREFIX..serialized] == rest
  {
    var step := width + LENGTH_PREFIX;
    var head := RowBytes(r, width);
    assert head[4..8] == Int32Bytes(r.key.pk);
    assert head[8..12] == Int32Bytes(r.key.value);
    var whole := buf[ii - 4..serialized];
    assert whole[..step] == head;
    assert buf[ii - 4..ii - 4 + step] == whole[..step];
    assert whole[step..] == rest;
    SliceWithin(buf, ii - 4, ii - 4 + step, head, 4, Int32Bytes(r.key.pk));
    SliceWithin(buf, ii - 4, ii - 4 + step, head, 8, Int32Bytes(r.key.value));
    ReadInt32Bytes(buf, ii, r.key.pk);
    ReadInt32Bytes(buf, ii + 4, r.key.value);
  }

  /** A key read at ii in front of rows read from the next stride on. */
  lemma ReadsRowsCons(buf: seq<byte>, serialized: int, step: nat, ii: int, r: Row, tail: seq<Row>)
    requires step > 8 && 0 <= ii && ii + 8 <= serialized <= |buf| && KeyAt(buf, ii) == r.key
    requires ReadsRows(buf, serialized, RowOffsets(serialized, step, ii + step), tail)
    ensures ReadsRows(buf, serialized, RowOffsets(serialized, step, ii), [r] + tail)
  {
    var offs := RowOffsets(serialized, step, ii);
    var rest := RowOffsets(serialized, step, ii + step);
    var rs := [r] + tail;
    assert offs == [ii] + rest;
    forall i | 0 <= i < |offs|
      ensures 0 <= offs[i] && offs[i] + 8 <= serialized && KeyAt(buf, offs[i]) == rs[i].key
    {
      if i > 0 {
        assert offs[i] == rest[i - 1];
        assert rs[i] == tail[i - 1];
      }
    }
  }

  /** Rows laid out from ii - 4 to `serialized` are decoded one per visited offset, in
      stream order, every key read inside the serialized bytes. */
  lemma {:induction false} RowsAt(buf: seq<byte>, serialized: int, width: nat, ii: int, rs: seq<Row>)
    requires 8 <= width < 0x8000_0000 && RowsOfWidth(rs, width)
    requires 4 <= ii && ii - 4 <= serialized <= |buf|
    requires buf[ii - 4..serialized] == RowsBytes(rs, width)
    ensures ReadsRows(buf, serialized, RowOffsets(serialized, width + LENGTH_PREFIX, ii), rs)
    decreases |rs|
  {
    var step := width + LENGTH_PREFIX;
    if rs != [] {
      var tail := rs[1..];
      RowsBytesCons(rs, width);
      FirstRow(buf, serialized, width, ii, rs[0], RowsBytes(tail, width));
      RowsAt(buf, serialized, width, ii + step, tail);
      ReadsRowsCons(buf, serialized, step, ii, rs[0], tail);
      assert [rs[0]] + tail == rs;
    } else {
      assert serialized == ii - 4;
    }
  }

  /** Decoding a well-formed stream of K rows visits K offsets, row i at
      12 + i * (width + 4), every read inside the serialized bytes, and reads the row
      keys in stream order. */
  lemma StreamKeysInOrder(buf: seq<byte>, serialized: int, partitionId: int32, rows: seq<Row>, width: nat)
    requires 8 <= width < 0x8000_0000 && RowsOfWidth(rows, width) && |rows| < 0x8000_0000
    requires serialized == |StreamBytes(partitionId, rows, width)| <= |buf|
    requires buf[..serialized] == StreamBytes(partitionId, rows, width)
    ensures Strided(RowOffsets(serialized, width + LENGTH_PREFIX, FIRST_ROW_OFFSET),
                    FIRST_ROW_OFFSET, width + LENGTH_PREFIX, |rows|)
    ensures ReadsRows(buf, serialized, RowOffsets(serialized, width + LENGTH_PREFIX, FIRST_ROW_OFFSET), rows)
    ensures InBuffer(buf, RowOffsets(serialized, width + LENGTH_PREFIX, FIRST_ROW_OFFSET))
    ensures KeysAt(buf, RowOffsets(serialized, width + LENGTH_PREFIX, FIRST_ROW_OFFSET)) == Keys(rows)
  {
    var step := width + LENGTH_PREFIX;
    var s := StreamBytes(partitionId, rows, width);
    assert buf[HEADER_SIZE..serialized] == s[HEADER_SIZE..] == RowsBytes(rows, width);
    RowsAt(buf, serialized, width, FIRST_ROW_OFFSET, rows);
    OffsetsOfRows(FIRST_ROW_OFFSET, |rows|, step);
  }

  /** Where every offset is inside the buffer, decoding is the insertion loop over the
      keys at those offsets. */
  lemma {:induction false} ReadKeysInBounds(buf: seq<byte>, offs: seq<int>, seen: set<Key>, rows: nat)
    requires InBuffer(buf, offs)
    ensures ReadKeys(buf, offs, seen, rows) == FromInsertOutcome(InsertAll(seen, rows, KeysAt(buf, offs)))
    decreases |offs|
  {
    if offs != [] {
      var ks := KeysAt(buf, offs);
      assert InBuffer(buf, offs[1..]) by {
        forall i | 0 <= i < |offs[1..]| ensures 0 <= offs[1..][i] && offs[1..][i] + 8 <= |buf| {
          assert offs[1..][i] == offs[i + 1];
        }
      }
      assert KeysAt(buf, offs[1..]) == ks[1..];
      ReadKeysInBounds(buf, offs[1..], seen + {ks[0]}, rows + 1);
    }
  }

  /** Round trip of the stream layout: decoding a buffer that begins with the encoding
      of K rows returns exactly their keys and K more rows, unless a key repeats (within
      the rows or against the keys already exported), in which case the decoder reports
      a repeated key; it never reads past the buffer. */
  lemma DecodeStream(buf: seq<byte>, serialized: int, partitionId: int32, rows: seq<Row>, width: nat,
                     seen: set<Key>, count: nat)
    requires 8 <= width < 0x8000_0000 && RowsOfWidth(rows, width) && |rows| < 0x8000_0000
    requires serialized == |StreamBytes(partitionId, rows, width)| <= |buf|
    requires buf[..serialized] == StreamBytes(partitionId, rows, width)
    ensures var r := ReadKeys(buf, RowOffsets(serialized, width + LENGTH_PREFIX, FIRST_ROW_OFFSET), seen, count);
      && !r.ReadPastEnd?
      && (r.Decoded? <==> Distinct(Keys(rows)) && DisjointFrom(Keys(rows), seen))
      && (r.Decoded? ==> r.keys == seen + Elements(Keys(rows)) && r.rows == count + |rows|
                         && |r.keys| == |seen| + |rows|)
      && (r.DuplicateRow? ==> exists j :: 0 <= j < |rows| && rows[j].key == r.key
                                          && (r.key in seen || r.key in Keys(rows)[..j]))
  {
    var offs := RowOffsets(serialized, width + LENGTH_PREFIX, FIRST_ROW_OFFSET);
    StreamKeysInOrder(buf, serialized, partitionId, rows, width);
    ReadKeysInBounds(buf, offs, seen, count);
    InsertAllSucceeds(seen, count, Keys(rows));
    if InsertAll(seen, count, Keys(rows)).AllInserted? {
      InsertAllContents(seen, count, Keys(rows));
    } else {
      InsertAllReportsRepeat(seen, count, Keys(rows));
    }
  }

  /** A buffer that the stream wrote in full decodes the same way through the loop. */
  method DecodeWellFormedChunk(buf: seq<byte>, partitionId: int32, rows: seq<Row>, width: nat)
    returns (r: DecodeOutcome)
    requires 8 <= width < 0x8000_0000 && RowsOfWidth(rows, width) && |rows| < 0x8000_0000
    requires |StreamBytes(partitionId, rows, width)| <= |buf|
    requires buf[..|StreamBytes(partitionId, rows, width)|] == StreamBytes(partitionId, rows, width)
    ensures r.Decoded? <==> Distinct(Keys(rows))
    ensures r.Decoded? ==> r.keys == Elements(Keys(rows)) && r.rows == |rows| && |r.keys| == |rows|
  {
    var serialized := |StreamBytes(partitionId, rows, width)|;
    r := DecodeChunk(buf, serialized, width, {}, 0);
    DecodeStream(buf, serialized, partitionId, rows, width, {}, 0);
  }

  // The multi-stream test decodes with `ibuf < (serialized - sizeof(int32_t))`, where
  // sizeof yields a size_t: both sides are compared as unsigned 64-bit numbers.

  const SIZE_T_MODULUS: nat := 0x1_0000_0000_0000_0000

  /** Conversion of a C++ int to size_t. */
  function SizeT(x: int): (u: nat)
    ensures u < SIZE_T_MODULUS
    ensures 0 <= x < SIZE_T_MODULUS ==> u == x
    ensures x < 0 && 0 <= x + SIZE_T_MODULUS ==> u == x + SIZE_T_MODULUS
  {
    x % SIZE_T_MODULUS
  }

  /** The multi-stream loop guard as the compiler evaluates it. */
  predicate MultiStreamGuard(ibuf: int, serialized: int)
  {
    SizeT(ibuf) < SizeT(serialized - 4)
  }

  /** A buffer holding 1 to 3 bytes makes the as-written guard wrap around and admit a
      read at offset 12, past the serialized bytes. */
  lemma MultiStreamGuardAdmitsShortBuffer()
    ensures MultiStreamGuard(FIRST_ROW_OFFSET, 2) && FIRST_ROW_OFFSET >= 2
    ensures RowOffsets(2, TUPLE_WIDTH + LENGTH_PREFIX, FIRST_ROW_OFFSET) == []
  {
  }

  /** From four serialized bytes on, the as-written guard and the signed guard agree. */
  lemma MultiStreamGuardAgrees(ibuf: int, serialized: int)
    requires 0 <= ibuf < SIZE_T_MODULUS && 4 <= serialized < SIZE_T_MODULUS
    ensures MultiStreamGuard(ibuf, serialized) <==> ibuf < serialized - 4
  {
  }
}
