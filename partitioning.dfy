/** The multi-stream test splits the table among seven predicates, one per partition,
    and precomputes which rows each predicate should receive. A predicate compares the
    partition column's value modulo the partition count with the partition number,
    with the modulus spelled out through division, multiplication and subtraction on
    INTEGER values. One partition is given the target -1 and so selects nothing. */
module Partitioning {
  import opened Wire
  import opened KeySets

  const NPARTITIONS: nat := 7
  /** The partition whose predicate targets -1. */
  const SKIPPED_PARTITION: nat := NPARTITIONS / 2
  /** The table is created with column 0, the primary key, as its partition column. */
  const PARTITION_COLUMN: nat := 0

  /** C++ integer division: the quotient is truncated toward zero. */
  function TruncDiv(a: int, b: int): (q: int)
    requires b != 0
    ensures a >= 0 && b > 0 ==> q == a / b
    ensures 0 <= q * b <= a || a <= q * b <= 0
    ensures var r := a - q * b; -b < r < b || b < r < -b
    ensures var r := a - q * b; r == 0 || (r < 0 <==> a < 0)
  {
    var m := if a >= 0 then a else -a;
    var n := if b > 0 then b else -b;
    var q := m / n;
    FloorProductBounds(m, n);
    var t := if (a >= 0) == (b > 0) then q else -q;
    assert t * b == if a >= 0 then q * n else -(q * n);
    assert a - t * b == if a >= 0 then m - q * n else -(m - q * n);
    t
  }

  /** The quotient of non-negative operands times the divisor lies between 0 and the
      dividend, short of it by less than the divisor. */
  lemma FloorProductBounds(m: nat, n: nat)
    requires n > 0
    ensures 0 <= (m / n) * n <= m
    ensures m - (m / n) * n < n
  {
    var q := m / n;
    assert m == q * n + m % n;
    assert q >= 0;
  }

  /** The remainder that goes with TruncDiv: it takes the sign of the dividend. */
  function TruncRem(a: int, b: int): (r: int)
    requires b != 0
    ensures a >= 0 && b > 0 ==> r == a % b
    ensures a >= 0 ==> 0 <= r && (r < b || r < -b)
    ensures a < 0 ==> r <= 0 && (-r < b || -r < -b)
  {
    a - TruncDiv(a, b) * b
  }

  predicate InInt32(x: int)
  {
    -0x8000_0000 <= x < 0x8000_0000
  }

  /** The INTEGER expression tree that generatePredicateString writes as JSON. */
  datatype IntExpr =
    | TupleValue(column: nat)
    | ConstantValue(value: int)
    | Minus(left: IntExpr, right: IntExpr)
    | Multiply(left: IntExpr, right: IntExpr)
    | Divide(left: IntExpr, right: IntExpr)

  datatype Predicate = CompareEqual(left: IntExpr, right: IntExpr)

  /** Evaluation on a tuple's column values with INTEGER arithmetic: an absent column,
      a division by zero or a result outside the INTEGER range yields no value. */
  function EvalInt(e: IntExpr, tuple: seq<int>): (r: Option<int>)
    ensures r.Some? && (e.Minus? || e.Multiply? || e.Divide?) ==> InInt32(r.value)
  {
    match e
    case TupleValue(c) => if c < |tuple| then Some(tuple[c]) else None
    case ConstantValue(v) => Some(v)
    case Minus(l, r) =>
      (match (EvalInt(l, tuple), EvalInt(r, tuple))
       case (Some(a), Some(b)) => Ranged(a - b)
       case _ => None)
    case Multiply(l, r) =>
      (match (EvalInt(l, tuple), EvalInt(r, tuple))
       case (Some(a), Some(b)) => Ranged(a * b)
       case _ => None)
    case Divide(l, r) =>
      match (EvalInt(l, tuple), EvalInt(r, tuple))
      case (Some(a), Some(b)) => if b != 0 then Ranged(TruncDiv(a, b)) else None
      case _ => None
  }

  /** An INTEGER result, or none when it overflows. */
  function Ranged(x: int): (r: Option<int>)
    ensures r.Some? <==> InInt32(x)
    ensures r.Some? ==> r.value == x
  {
    if InInt32(x) then Some(x) else None
  }

  function EvalPredicate(p: Predicate, tuple: seq<int>): Option<bool>
  {
    match (EvalInt(p.left, tuple), EvalInt(p.right, tuple))
    case (Some(a), Some(b)) => Some(a == b)
    case _ => None
  }

  /** generatePredicateString: `(value - ((value / nparts) * nparts)) == ipart` over the
      partition column. */
  function GeneratePredicate(nparts: int, ipart: int): Predicate
  {
    var column := TupleValue(PARTITION_COLUMN);
    CompareEqual(
      Minus(column, Multiply(Divide(column, ConstantValue(nparts)), ConstantValue(nparts))),
      ConstantValue(ipart))
  }

  /** The written-out modulus is the C++ remainder: on every INTEGER value the
      predicate evaluates, without overflow, to `value % nparts == ipart`. */
  lemma PredicateIsRemainder(nparts: int, ipart: int, tuple: seq<int>)
    requires 0 < nparts < 0x8000_0000
    requires PARTITION_COLUMN < |tuple| && InInt32(tuple[PARTITION_COLUMN])
    ensures EvalPredicate(GeneratePredicate(nparts, ipart), tuple)
      == Some(TruncRem(tuple[PARTITION_COLUMN], nparts) == ipart)
  {
    var v := tuple[PARTITION_COLUMN];
    var q := TruncDiv(v, nparts);
    assert InInt32(q) by {
      if v >= 0 {
        assert q * nparts <= v;
      } else {
        assert v <= q * nparts;
      }
    }
    var column := TupleValue(PARTITION_COLUMN);
    var quotient := Divide(column, ConstantValue(nparts));
    assert EvalInt(quotient, tuple) == Some(q);
    assert InInt32(q * nparts);
    assert EvalInt(Multiply(quotient, ConstantValue(nparts)), tuple) == Some(q * nparts);
    assert InInt32(v - q * nparts);
    assert EvalInt(Minus(column, Multiply(quotient, ConstantValue(nparts))), tuple) == Some(v - q * nparts);
  }

  /** On the non-negative keys the test inserts, predicate `ipart` holds exactly for the
      values congruent to `ipart`, and a predicate with target -1 holds for none. */
  lemma PredicateSelectsResidue(nparts: int, ipart: int, v: int)
    requires 0 < nparts < 0x8000_0000 && 0 <= v < 0x8000_0000
    ensures EvalPredicate(GeneratePredicate(nparts, ipart), [v]) == Some(v % nparts == ipart)
    ensures EvalPredicate(GeneratePredicate(nparts, -1), [v]) == Some(false)
  {
    PredicateIsRemainder(nparts, ipart, [v]);
    PredicateIsRemainder(nparts, -1, [v]);
  }

  /** A key's predicate holds: the key's tuple evaluated by the partition predicate. */
  predicate Selects(p: Predicate, k: Key)
  {
    EvalPredicate(p, [k.pk as int, k.value as int]) == Some(true)
  }

  /** The range strings of one iteration: predicate i targets partition i, except the
      skipped one, which targets -1. */
  method PredicateTargets(nparts: nat, skipped: int) returns (preds: seq<Predicate>)
    ensures |preds| == nparts
    ensures forall i :: 0 <= i < nparts ==>
      preds[i] == GeneratePredicate(nparts, if i == skipped then -1 else i)
  {
    preds := [];
    var i := 0;
    while i < nparts
      invariant 0 <= i <= nparts && |preds| == i
      invariant forall j :: 0 <= j < i ==> preds[j] == GeneratePredicate(nparts, if j == skipped then -1 else j)
    {
      if i != skipped {
        preds := preds + [GeneratePredicate(nparts, i)];
      } else {
        preds := preds + [GeneratePredicate(nparts, -1)];
      }
      i := i + 1;
    }
  }

  /** Every key with a non-negative primary key is selected by the predicate of its
      residue and by no other; a key of the skipped partition is selected by none. */
  lemma {:induction false} TargetsPartitionKeys(preds: seq<Predicate>, nparts: nat, skipped: int, k: Key, i: nat)
    requires 0 < nparts < 0x8000_0000 && k.pk >= 0 && i < nparts == |preds|
    requires forall j :: 0 <= j < nparts ==>
      preds[j] == GeneratePredicate(nparts, if j == skipped then -1 else j)
    ensures Selects(preds[i], k) <==> i == k.pk % nparts && i != skipped
  {
    PredicateIsRemainder(nparts, if i == skipped then -1 else i, [k.pk as int, k.value as int]);
  }

  /** Where the test expects a row: the residue of its primary key. */
  function PartitionOf(k: Key, nparts: nat): (p: nat)
    requires nparts > 0 && k.pk >= 0
    ensures p < nparts
  {
    k.pk % nparts
  }

  predicate NonNegativeKeys(rows: seq<Key>)
  {
    forall i :: 0 <= i < |rows| ==> rows[i].pk >= 0
  }

  /** The expected partition sets, and the number of rows of the skipped partition; or
      the first row whose insertion found it already in its set. */
  datatype BucketOutcome = Buckets(expected: seq<set<Key>>, skipped: nat) | DuplicateInBucket(key: Key)

  /** The precalculation loop, row by row in table order. */
  function Bucketize(rows: seq<Key>, nparts: nat, skipped: int, buckets: seq<set<Key>>, skippedCount: nat): BucketOutcome
    requires nparts > 0 && |buckets| == nparts && NonNegativeKeys(rows)
    decreases |rows|
  {
    if rows == [] then Buckets(buckets, skippedCount)
    else
      var p := PartitionOf(rows[0], nparts);
      if p != skipped then
        if rows[0] in buckets[p] then DuplicateInBucket(rows[0])
        else Bucketize(rows[1..], nparts, skipped, buckets[p := buckets[p] + {rows[0]}], skippedCount)
      else Bucketize(rows[1..], nparts, skipped, buckets, skippedCount + 1)
  }

  function EmptyBuckets(nparts: nat): (b: seq<set<Key>>)
    ensures |b| == nparts && forall i :: 0 <= i < nparts ==> b[i] == {}
  {
    seq(nparts, _ => {})
  }

  /** Map the original tuples to their expected partitions. */
  method ExpectedBuckets(rows: seq<Key>, nparts: nat, skipped: int) returns (r: BucketOutcome)
    requires nparts > 0 && NonNegativeKeys(rows)
    ensures r == Bucketize(rows, nparts, skipped, EmptyBuckets(nparts), 0)
  {
    var expected := EmptyBuckets(nparts);
    var totalSkipped := 0;
    var i := 0;
    while i < |rows|
      invariant 0 <= i <= |rows| && |expected| == nparts
      invariant Bucketize(rows, nparts, skipped, EmptyBuckets(nparts), 0)
        == Bucketize(rows[i..], nparts, skipped, expected, totalSkipped)
    {
      assert rows[i..][1..] == rows[i + 1..];
      var ipart := rows[i].pk % nparts;
      if ipart != skipped {
        if rows[i] in expected[ipart] {
          return DuplicateInBucket(rows[i]);
        }
        expected := expected[ipart := expected[ipart] + {rows[i]}];
      } else {
        totalSkipped := totalSkipped + 1;
      }
      i := i + 1;
    }
    r := Buckets(expected, totalSkipped);
  }

  /** The rows of `rows` whose residue is p. */
  function InPartition(rows: seq<Key>, nparts: nat, p: int): set<Key>
    requires nparts > 0
  {
    set k | k in Elements(rows) && k.pk >= 0 && k.pk % nparts == p
  }

  /** The number of rows of `rows` whose residue is p. */
  function CountInPartition(rows: seq<Key>, nparts: nat, p: int): nat
    requires nparts > 0 && NonNegativeKeys(rows)
    decreases |rows|
  {
    if rows == [] then 0
    else (if PartitionOf(rows[0], nparts) == p then 1 else 0) + CountInPartition(rows[1..], nparts, p)
  }

  /** Splitting off the first row. */
  lemma InPartitionCons(rows: seq<Key>, nparts: nat, p: int)
    requires nparts > 0 && rows != [] && rows[0].pk >= 0
    ensures InPartition(rows, nparts, p) ==
      (if rows[0].pk % nparts == p then {rows[0]} else {}) + InPartition(rows[1..], nparts, p)
  {
    ElementsCons(rows);
  }

  /** Over repetition-free rows the count is the size of the set. */
  lemma {:induction false} CountIsSize(rows: seq<Key>, nparts: nat, p: int)
    requires nparts > 0 && NonNegativeKeys(rows) && Distinct(rows)
    ensures CountInPartition(rows, nparts, p) == |InPartition(rows, nparts, p)|
    decreases |rows|
  {
    if rows == [] {
      assert InPartition(rows, nparts, p) == {};
    } else {
      InPartitionCons(rows, nparts, p);
      DistinctCons(rows);
      assert rows[0] !in InPartition(rows[1..], nparts, p);
      CountIsSize(rows[1..], nparts, p);
    }
  }

  /** The loop fails only on a repeated row: over repetition-free rows, none of which is
      already collected, it fills every set. */
  lemma {:induction false} BucketizeSucceeds(rows: seq<Key>, nparts: nat, skipped: int, buckets: seq<set<Key>>, skippedCount: nat)
    requires nparts > 0 && |buckets| == nparts && NonNegativeKeys(rows) && Distinct(rows)
    requires forall i :: 0 <= i < nparts ==> buckets[i] !! Elements(rows)
    ensures Bucketize(rows, nparts, skipped, buckets, skippedCount).Buckets?
    decreases |rows|
  {
    if rows != [] {
      var p := PartitionOf(rows[0], nparts);
      ElementsCons(rows);
      DistinctCons(rows);
      var next := if p != skipped then buckets[p := buckets[p] + {rows[0]}] else buckets;
      BucketizeSucceeds(rows[1..], nparts, skipped, next, if p != skipped then skippedCount else skippedCount + 1);
    }
  }

  /** What the loop collects: set p gains the rows of residue p, unless p is the
      skipped partition, whose rows are only counted. */
  lemma {:induction false} BucketizeContents(rows: seq<Key>, nparts: nat, skipped: int, buckets: seq<set<Key>>, skippedCount: nat)
    requires nparts > 0 && |buckets| == nparts && NonNegativeKeys(rows)
    requires Bucketize(rows, nparts, skipped, buckets, skippedCount).Buckets?
    ensures |Bucketize(rows, nparts, skipped, buckets, skippedCount).expected| == nparts
    ensures forall i :: 0 <= i < nparts ==>
      Bucketize(rows, nparts, skipped, buckets, skippedCount).expected[i]
        == buckets[i] + (if i == skipped then {} else InPartition(rows, nparts, i))
    ensures Bucketize(rows, nparts, skipped, buckets, skippedCount).skipped
      == skippedCount + CountInPartition(rows, nparts, skipped)
    decreases |rows|
  {
    if rows == [] {
      forall i | 0 <= i < nparts ensures InPartition(rows, nparts, i) == {} {}
    } else {
      var p := PartitionOf(rows[0], nparts);
      forall i | 0 <= i < nparts {
        InPartitionCons(rows, nparts, i);
      }
      var next := if p != skipped then buckets[p := buckets[p] + {rows[0]}] else buckets;
      BucketizeContents(rows[1..], nparts, skipped, next, if p != skipped then skippedCount else skippedCount + 1);
    }
  }

  /** The precalculation over the table's rows (which are repetition-free): set p holds
      exactly the rows of residue p, the skipped partition's set stays empty, and the
      skip counter is the number of rows of the skipped partition. */
  lemma ExpectedPartitions(rows: seq<Key>, nparts: nat, skipped: int)
    requires nparts > 0 && NonNegativeKeys(rows) && Distinct(rows)
    ensures Bucketize(rows, nparts, skipped, EmptyBuckets(nparts), 0).Buckets?
    ensures |Bucketize(rows, nparts, skipped, EmptyBuckets(nparts), 0).expected| == nparts
    ensures forall i :: 0 <= i < nparts ==>
      Bucketize(rows, nparts, skipped, EmptyBuckets(nparts), 0).expected[i]
        == (if i == skipped then {} else InPartition(rows, nparts, i))
    ensures Bucketize(rows, nparts, skipped, EmptyBuckets(nparts), 0).skipped == |InPartition(rows, nparts, skipped)|
  {
    BucketizeSucceeds(rows, nparts, skipped, EmptyBuckets(nparts), 0);
    BucketizeContents(rows, nparts, skipped, EmptyBuckets(nparts), 0);
    CountIsSize(rows, nparts, skipped);
  }

  /** The sets of two different partitions share no row. */
  lemma ExpectedDisjoint(rows: seq<Key>, nparts: nat, skipped: int, i: nat, j: nat)
    requires nparts > 0 && NonNegativeKeys(rows) && Distinct(rows)
    requires i < nparts && j < nparts && i != j
    ensures Bucketize(rows, nparts, skipped, EmptyBuckets(nparts), 0).Buckets?
    ensures |Bucketize(rows, nparts, skipped, EmptyBuckets(nparts), 0).expected| == nparts
    ensures Bucketize(rows, nparts, skipped, EmptyBuckets(nparts), 0).expected[i]
         !! Bucketize(rows, nparts, skipped, EmptyBuckets(nparts), 0).expected[j]
  {
    ExpectedPartitions(rows, nparts, skipped);
  }

  /** The total size of a sequence of sets. */
  function SumSizes(bs: seq<set<Key>>): nat
    decreases |bs|
  {
    if bs == [] then 0 else |bs[0]| + SumSizes(bs[1..])
  }

  /** Replacing one set changes the total by the difference of the sizes. */
  lemma {:induction false} SumSizesUpdate(bs: seq<set<Key>>, p: nat, x: set<Key>)
    requires p < |bs|
    ensures SumSizes(bs[p := x]) == SumSizes(bs) - |bs[p]| + |x|
    decreases p
  {
    if p > 0 {
      assert bs[p := x][1..] == bs[1..][p - 1 := x];
      SumSizesUpdate(bs[1..], p - 1, x);
    }
  }

  /** Every row ends up in one set or in the skip counter: the sizes grow by one per row. */
  lemma {:induction false} BucketizeConserves(rows: seq<Key>, nparts: nat, skipped: int, buckets: seq<set<Key>>, skippedCount: nat)
    requires nparts > 0 && |buckets| == nparts && NonNegativeKeys(rows) && Distinct(rows)
    requires forall i :: 0 <= i < nparts ==> buckets[i] !! Elements(rows)
    ensures Bucketize(rows, nparts, skipped, buckets, skippedCount).Buckets?
    ensures SumSizes(Bucketize(rows, nparts, skipped, buckets, skippedCount).expected)
      + Bucketize(rows, nparts, skipped, buckets, skippedCount).skipped
      == SumSizes(buckets) + skippedCount + |rows|
    decreases |rows|
  {
    if rows != [] {
      var p := PartitionOf(rows[0], nparts);
      var tail := rows[1..];
      ElementsCons(rows);
      DistinctCons(rows);
      assert NonNegativeKeys(tail) by {
        forall i | 0 <= i < |tail| ensures tail[i].pk >= 0 {
          assert tail[i] == rows[i + 1];
        }
      }
      assert rows[0] !in buckets[p];
      if p != skipped {
        var next := buckets[p := buckets[p] + {rows[0]}];
        assert Bucketize(rows, nparts, skipped, buckets, skippedCount)
          == Bucketize(tail, nparts, skipped, next, skippedCount);
        assert |next[p]| == |buckets[p]| + 1;
        SumSizesUpdate(buckets, p, next[p]);
        assert forall i :: 0 <= i < nparts ==> next[i] !! Elements(tail);
        BucketizeConserves(tail, nparts, skipped, next, skippedCount);
      } else {
        assert Bucketize(rows, nparts, skipped, buckets, skippedCount)
          == Bucketize(tail, nparts, skipped, buckets, skippedCount + 1);
        BucketizeConserves(tail, nparts, skipped, buckets, skippedCount + 1);
      }
    }
  }

  /** The expected sets' sizes and the skip counter add up to the table's row count. */
  lemma RowsAccountedFor(rows: seq<Key>, nparts: nat, skipped: int)
    requires nparts > 0 && NonNegativeKeys(rows) && Distinct(rows)
    ensures Bucketize(rows, nparts, skipped, EmptyBuckets(nparts), 0).Buckets?
    ensures SumSizes(Bucketize(rows, nparts, skipped, EmptyBuckets(nparts), 0).expected)
      + Bucketize(rows, nparts, skipped, EmptyBuckets(nparts), 0).skipped == |rows|
  {
    var empty := EmptyBuckets(nparts);
    assert SumSizes(empty) == 0 by {
      EmptySum(empty);
    }
    BucketizeConserves(rows, nparts, skipped, empty, 0);
  }

  lemma {:induction false} EmptySum(bs: seq<set<Key>>)
    requires forall i :: 0 <= i < |bs| ==> bs[i] == {}
    ensures SumSizes(bs) == 0
    decreases |bs|
  {
    if bs != [] {
      EmptySum(bs[1..]);
    }
  }

  /** The expected sets are what the predicates select: a row is in set i exactly when
      predicate i holds for it. */
  lemma ExpectedIsSelected(rows: seq<Key>, preds: seq<Predicate>, nparts: nat, skipped: int, k: Key, i: nat)
    requires 0 < nparts < 0x8000_0000 && NonNegativeKeys(rows) && Distinct(rows)
    requires i < nparts == |preds| && k in Elements(rows)
    requires forall j :: 0 <= j < nparts ==>
      preds[j] == GeneratePredicate(nparts, if j == skipped then -1 else j)
    ensures Bucketize(rows, nparts, skipped, EmptyBuckets(nparts), 0).Buckets?
    ensures |Bucketize(rows, nparts, skipped, EmptyBuckets(nparts), 0).expected| == nparts
    ensures Selects(preds[i], k) <==> k in Bucketize(rows, nparts, skipped, EmptyBuckets(nparts), 0).expected[i]
  {
    ExpectedPartitions(rows, nparts, skipped);
    var j :| 0 <= j < |rows| && rows[j] == k;
    TargetsPartitionKeys(preds, nparts, skipped, k, i);
  }

  /** When every streamed row is deleted, the rows that remain are those no predicate
      selects, and there are as many as the precalculation skipped. */
  lemma DeleteLeavesSkipped(rows: seq<Key>, preds: seq<Predicate>, nparts: nat, skipped: int)
    requires 0 < nparts < 0x8000_0000 && NonNegativeKeys(rows) && Distinct(rows)
    requires 0 <= skipped < nparts == |preds|
    requires forall j :: 0 <= j < nparts ==>
      preds[j] == GeneratePredicate(nparts, if j == skipped then -1 else j)
    ensures (set k | k in Elements(rows) && forall i :: 0 <= i < nparts ==> !Selects(preds[i], k))
      == InPartition(rows, nparts, skipped)
    ensures Bucketize(rows, nparts, skipped, EmptyBuckets(nparts), 0).Buckets?
    ensures |InPartition(rows, nparts, skipped)| == Bucketize(rows, nparts, skipped, EmptyBuckets(nparts), 0).skipped
  {
    ExpectedPartitions(rows, nparts, skipped);
    forall k | k in Elements(rows)
      ensures (forall i :: 0 <= i < nparts ==> !Selects(preds[i], k)) <==> k in InPartition(rows, nparts, skipped)
    {
      var j :| 0 <= j < |rows| && rows[j] == k;
      var p := k.pk % nparts;
      TargetsPartitionKeys(preds, nparts, skipped, k, p);
      forall i | 0 <= i < nparts ensures Selects(preds[i], k) <==> i == p && i != skipped {
        TargetsPartitionKeys(preds, nparts, skipped, k, i);
      }
    }
  }
}
