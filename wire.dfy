/** Byte layout of one snapshot destination buffer as the test harness reads it:
    a header [partitionId:4][rowCount:4] followed by rows [length:4][tuple bytes],
    every 32-bit field in network (big-endian) order. The first two columns of a
    test tuple are INTEGER columns, so the first eight bytes of a serialized row
    are the row's key: the primary key and the random value. */
module Wire {

  type byte = b: int | 0 <= b < 0x100
  type int32 = x: int | -0x8000_0000 <= x < 0x8000_0000

  /** partitionId and rowCount. */
  const HEADER_SIZE: nat := 8
  /** Each row is preceded by its 32-bit length. */
  const LENGTH_PREFIX: nat := 4
  /** Two INTEGER columns and seven BIGINT filler columns. */
  const TUPLE_WIDTH: nat := 4 * 2 + 8 * 7

  datatype Option<T> = None | Some(value: T)

  /** The identity of a test row: column 0 (primary key) and column 1 (random value). */
  datatype Key = Key(pk: int32, value: int32)

  /** A serialized row: its key columns and the bytes of the remaining (filler) columns. */
  datatype Row = Row(key: Key, filler: seq<byte>)

  /** Two's-complement reading of an int32 as an unsigned 32-bit number. */
  function Unsigned(x: int32): (u: nat)
    ensures u < 0x1_0000_0000
    ensures x >= 0 ==> u == x
    ensures x < 0 ==> u == x + 0x1_0000_0000
  {
    if x < 0 then x + 0x1_0000_0000 else x
  }

  /** htonl: the four bytes of x, most significant first. */
  function Int32Bytes(x: int32): (bs: seq<byte>)
    ensures |bs| == 4
  {
    var u := Unsigned(x);
    [u / 0x100_0000, (u / 0x1_0000) % 0x100, (u / 0x100) % 0x100, u % 0x100]
  }

  /** ntohl of the four bytes at offset `at`, as a signed int32. */
  function ReadInt32(buf: seq<byte>, at: nat): int32
    requires at + 4 <= |buf|
  {
    var u: int := (buf[at] as int) * 0x100_0000 + (buf[at + 1] as int) * 0x1_0000 + (buf[at + 2] as int) * 0x100 + buf[at + 3];
    if u < 0x8000_0000 then u else u - 0x1_0000_0000
  }

  /** Reading back the bytes written for x yields x, wherever they sit in a buffer. */
  lemma ReadInt32Bytes(buf: seq<byte>, at: nat, x: int32)
    requires at + 4 <= |buf| && buf[at..at + 4] == Int32Bytes(x)
    ensures ReadInt32(buf, at) == x
  {
    var u := Unsigned(x);
    var bs := Int32Bytes(x);
    assert buf[at] == bs[0] && buf[at + 1] == bs[1] && buf[at + 2] == bs[2] && buf[at + 3] == bs[3];
    var q1 := u / 0x100;
    var q2 := q1 / 0x100;
    assert u == q1 * 0x100 + u % 0x100;
    assert q1 == q2 * 0x100 + q1 % 0x100;
    assert q2 == (q2 / 0x100) * 0x100 + q2 % 0x100;
    assert u / 0x1_0000 == q2;
    assert u / 0x100_0000 == q2 / 0x100;
  }

  /** The bytes of one row of the given tuple width: the length prefix, the two key
      columns and the filler columns. */
  function RowBytes(r: Row, width: nat): (bs: seq<byte>)
    requires 8 <= width < 0x8000_0000 && |r.filler| == width - 8
    ensures |bs| == width + LENGTH_PREFIX
  {
    Int32Bytes(width) + Int32Bytes(r.key.pk) + Int32Bytes(r.key.value) + r.filler
  }

  /** Every row of `rows` carries filler of the width's size. */
  predicate RowsOfWidth(rows: seq<Row>, width: nat)
  {
    forall i :: 0 <= i < |rows| ==> |rows[i].filler| == width - 8
  }

  function RowsBytes(rows: seq<Row>, width: nat): (bs: seq<byte>)
    requires 8 <= width < 0x8000_0000 && RowsOfWidth(rows, width)
    ensures |bs| == |rows| * (width + LENGTH_PREFIX)
  {
    if rows == [] then []
    else
      var tail := rows[1..];
      assert RowsOfWidth(tail, width) by {
        forall i | 0 <= i < |tail| ensures |tail[i].filler| == width - 8 {
          assert tail[i] == rows[i + 1];
        }
      }
      assert |tail| * (width + LENGTH_PREFIX) + (width + LENGTH_PREFIX) == |rows| * (width + LENGTH_PREFIX);
      RowBytes(rows[0], width) + RowsBytes(tail, width)
  }

  /** The bytes of a non-empty run of rows are its first row's bytes, then the rest's. */
  lemma RowsBytesCons(rows: seq<Row>, width: nat)
    requires 8 <= width < 0x8000_0000 && RowsOfWidth(rows, width) && rows != []
    ensures RowsOfWidth(rows[1..], width)
    ensures RowsBytes(rows, width) == RowBytes(rows[0], width) + RowsBytes(rows[1..], width)
  {
    var tail := rows[1..];
    forall i | 0 <= i < |tail| ensures |tail[i].filler| == width - 8 {
      assert tail[i] == rows[i + 1];
    }
  }

  /** A complete destination stream: header with the back-patched row count, then the rows. */
  function StreamBytes(partitionId: int32, rows: seq<Row>, width: nat): (bs: seq<byte>)
    requires 8 <= width < 0x8000_0000 && RowsOfWidth(rows, width) && |rows| < 0x8000_0000
    ensures |bs| == HEADER_SIZE + |rows| * (width + LENGTH_PREFIX)
  {
    Int32Bytes(partitionId) + Int32Bytes(|rows|) + RowsBytes(rows, width)
  }

  /** The keys of the rows, in stream order. */
  function Keys(rows: seq<Row>): (ks: seq<Key>)
    ensures |ks| == |rows|
    ensures forall i :: 0 <= i < |rows| ==> ks[i] == rows[i].key
  {
    seq(|rows|, i requires 0 <= i < |rows| => rows[i].key)
  }
}
