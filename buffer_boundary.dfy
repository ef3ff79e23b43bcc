/** The buffer-boundary test sizes its one destination buffer to hold the stream header,
    the row-length field before the first row and `tupleCount` rows with their length
    fields, so that after the last row there is room for a length field but not for
    another row: the writer learns it cannot fit another tuple right after writing the
    last one. */
module BufferBoundary {
  import opened Wire

  /** The test's tuple count. */
  const BOUNDARY_TUPLE_COUNT: nat := 3

  /** `12 + (tupleWidth + 4) * tupleCount`. */
  function BoundaryBufferSize(tupleCount: nat, width: nat): nat
  {
    12 + (width + LENGTH_PREFIX) * tupleCount
  }

  /** A complete stream of the test's rows fills the buffer up to four spare bytes,
      and a stream with one more row would not fit. */
  lemma BoundaryBufferFits(partitionId: int32, rows: seq<Row>, extra: Row, width: nat)
    requires 8 <= width < 0x8000_0000 && RowsOfWidth(rows, width) && |rows| + 1 < 0x8000_0000
    requires |extra.filler| == width - 8
    ensures |StreamBytes(partitionId, rows, width)| + LENGTH_PREFIX == BoundaryBufferSize(|rows|, width)
    ensures RowsOfWidth(rows + [extra], width)
    ensures |StreamBytes(partitionId, rows + [extra], width)| > BoundaryBufferSize(|rows|, width)
  {
    assert RowsOfWidth(rows + [extra], width) by {
      forall i | 0 <= i < |rows| + 1 ensures |(rows + [extra])[i].filler| == width - 8 {
        if i < |rows| { assert (rows + [extra])[i] == rows[i]; }
      }
    }
    assert (|rows| + 1) * (width + LENGTH_PREFIX) == |rows| * (width + LENGTH_PREFIX) + width + LENGTH_PREFIX;
  }

  /** The test's instance: the buffer sized for its three tuples takes their stream
      with four bytes to spare and has no room for a fourth tuple. */
  lemma BoundaryTestBuffer(partitionId: int32, rows: seq<Row>, extra: Row, width: nat)
    requires 8 <= width < 0x8000_0000 && RowsOfWidth(rows, width) && |rows| == BOUNDARY_TUPLE_COUNT
    requires |extra.filler| == width - 8
    ensures |StreamBytes(partitionId, rows, width)| + LENGTH_PREFIX == BoundaryBufferSize(BOUNDARY_TUPLE_COUNT, width)
    ensures |StreamBytes(partitionId, rows + [extra], width)| > BoundaryBufferSize(BOUNDARY_TUPLE_COUNT, width)
  {
    BoundaryBufferFits(partitionId, rows, extra, width);
  }
}
