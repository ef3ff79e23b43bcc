/** The harness collects row keys in ordered sets and asserts that every insertion
    actually added a key (`set.insert(v).second`): a key seen twice stops the test.
    InsertAll is that loop, stated once and shared by every place that does it. */
module KeySets {
  import opened Wire

  /** Either every key went in (the final set and the number of insertions), or the
      first key that was already present. */
  datatype InsertOutcome = AllInserted(keys: set<Key>, count: nat) | Duplicate(key: Key)

  /** Insert ks[0], ks[1], ... into `seen`, stopping at the first failed insertion. */
  function InsertAll(seen: set<Key>, count: nat, ks: seq<Key>): InsertOutcome
    decreases |ks|
  {
    if ks == [] then AllInserted(seen, count)
    else if ks[0] in seen then Duplicate(ks[0])
    else InsertAll(seen + {ks[0]}, count + 1, ks[1..])
  }

  /** No key occurs twice. */
  predicate Distinct(ks: seq<Key>)
  {
    forall i, j :: 0 <= i < j < |ks| ==> ks[i] != ks[j]
  }

  /** No key of ks is in s. */
  predicate DisjointFrom(ks: seq<Key>, s: set<Key>)
  {
    forall i :: 0 <= i < |ks| ==> ks[i] !in s
  }

  function Elements(ks: seq<Key>): set<Key>
  {
    set i | 0 <= i < |ks| :: ks[i]
  }

  /** Splitting off the first key. */
  lemma ElementsCons(ks: seq<Key>)
    requires ks != []
    ensures Elements(ks) == {ks[0]} + Elements(ks[1..])
  {
    var tail := ks[1..];
    forall x | x in Elements(ks) ensures x in {ks[0]} + Elements(tail) {
      var i :| 0 <= i < |ks| && ks[i] == x;
      if i > 0 { assert tail[i - 1] == x; }
    }
    forall x | x in Elements(tail) ensures x in Elements(ks) {
      var i :| 0 <= i < |tail| && tail[i] == x;
      assert ks[i + 1] == x;
    }
  }

  /** Appending one key. */
  lemma ElementsSnoc(ks: seq<Key>, k: Key)
    ensures Elements(ks + [k]) == Elements(ks) + {k}
  {
    var longer := ks + [k];
    forall x | x in Elements(longer) ensures x in Elements(ks) + {k} {
      var j :| 0 <= j < |longer| && longer[j] == x;
      if j < |ks| { assert ks[j] == x; }
    }
    forall x | x in Elements(ks) ensures x in Elements(longer) {
      var j :| 0 <= j < |ks| && ks[j] == x;
      assert longer[j] == x;
    }
    assert longer[|ks|] == k;
  }

  /** The keys of a concatenation are the keys of its parts. */
  lemma ElementsAppend(a: seq<Key>, b: seq<Key>)
    ensures Elements(a + b) == Elements(a) + Elements(b)
  {
    var ab := a + b;
    forall x | x in Elements(ab) ensures x in Elements(a) + Elements(b) {
      var j :| 0 <= j < |ab| && ab[j] == x;
      if j < |a| { assert a[j] == x; } else { assert b[j - |a|] == x; }
    }
    forall x | x in Elements(a) ensures x in Elements(ab) {
      var j :| 0 <= j < |a| && a[j] == x;
      assert ab[j] == x;
    }
    forall x | x in Elements(b) ensures x in Elements(ab) {
      var j :| 0 <= j < |b| && b[j] == x;
      assert ab[|a| + j] == x;
    }
  }

  /** New, repetition-free keys split into new, repetition-free parts, the second new
      also with respect to the first. */
  lemma DistinctAppend(s: set<Key>, a: seq<Key>, b: seq<Key>)
    requires Distinct(a + b) && DisjointFrom(a + b, s)
    ensures Distinct(a) && DisjointFrom(a, s)
    ensures Distinct(b) && DisjointFrom(b, s + Elements(a))
  {
    var ab := a + b;
    forall i, j | 0 <= i < j < |a| ensures a[i] != a[j] {
      assert a[i] == ab[i] && a[j] == ab[j];
    }
    forall i | 0 <= i < |a| ensures a[i] !in s {
      assert a[i] == ab[i];
    }
    forall i, j | 0 <= i < j < |b| ensures b[i] != b[j] {
      assert b[i] == ab[|a| + i] && b[j] == ab[|a| + j];
    }
    forall i | 0 <= i < |b| ensures b[i] !in s + Elements(a) {
      assert b[i] == ab[|a| + i];
      forall j | 0 <= j < |a| ensures a[j] != b[i] {
        assert a[j] == ab[j];
      }
    }
  }

  /** A sequence is repetition-free when its tail is and its head is not in the tail. */
  lemma DistinctCons(ks: seq<Key>)
    requires ks != []
    ensures Distinct(ks) <==> Distinct(ks[1..]) && ks[0] !in Elements(ks[1..])
  {
    var tail := ks[1..];
    if Distinct(ks) {
      forall i, j | 0 <= i < j < |tail| ensures tail[i] != tail[j] {
        assert tail[i] == ks[i + 1] && tail[j] == ks[j + 1];
      }
      forall i | 0 <= i < |tail| ensures tail[i] != ks[0] {
        assert tail[i] == ks[i + 1];
      }
    }
    if Distinct(tail) && ks[0] !in Elements(tail) {
      forall i, j | 0 <= i < j < |ks| ensures ks[i] != ks[j] {
        assert ks[j] == tail[j - 1];
        if i > 0 { assert ks[i] == tail[i - 1]; }
      }
    }
  }

  /** The keys of a repetition-free sequence form a set of the same size. */
  lemma {:induction false} DistinctCardinality(ks: seq<Key>)
    requires Distinct(ks)
    ensures |Elements(ks)| == |ks|
  {
    if ks == [] {
      assert Elements(ks) == {};
    } else {
      DistinctCons(ks);
      ElementsCons(ks);
      DistinctCardinality(ks[1..]);
    }
  }

  /** The insertion loop succeeds exactly when no key repeats and none was already
      collected. */
  lemma {:induction false} InsertAllSucceeds(seen: set<Key>, count: nat, ks: seq<Key>)
    ensures InsertAll(seen, count, ks).AllInserted? <==> Distinct(ks) && DisjointFrom(ks, seen)
    decreases |ks|
  {
    if ks != [] {
      var tail := ks[1..];
      DistinctCons(ks);
      ElementsCons(ks);
      if ks[0] in seen {
        assert !DisjointFrom(ks, seen);
      } else {
        InsertAllSucceeds(seen + {ks[0]}, count + 1, tail);
        assert DisjointFrom(ks, seen) && ks[0] !in Elements(tail) <==> DisjointFrom(tail, seen + {ks[0]}) by {
          if DisjointFrom(ks, seen) && ks[0] !in Elements(tail) {
            forall i | 0 <= i < |tail| ensures tail[i] !in seen + {ks[0]} {
              assert tail[i] == ks[i + 1];
            }
          }
          if DisjointFrom(tail, seen + {ks[0]}) {
            forall i | 0 <= i < |ks| ensures ks[i] !in seen {
              if i > 0 { assert ks[i] == tail[i - 1]; }
            }
            assert ks[0] !in Elements(tail);
          }
        }
      }
    }
  }

  /** After a successful run the set holds the old keys plus the new ones, and one
      insertion was counted per key. */
  lemma {:induction false} InsertAllContents(seen: set<Key>, count: nat, ks: seq<Key>)
    requires InsertAll(seen, count, ks).AllInserted?
    ensures InsertAll(seen, count, ks).keys == seen + Elements(ks)
    ensures InsertAll(seen, count, ks).count == count + |ks|
    ensures |InsertAll(seen, count, ks).keys| == |seen| + |ks|
    decreases |ks|
  {
    if ks == [] {
      assert Elements(ks) == {};
    } else {
      ElementsCons(ks);
      InsertAllContents(seen + {ks[0]}, count + 1, ks[1..]);
    }
  }

  /** A failed run names a key whose insertion found it already present. */
  lemma {:induction false} InsertAllReportsRepeat(seen: set<Key>, count: nat, ks: seq<Key>)
    requires InsertAll(seen, count, ks).Duplicate?
    ensures exists j :: 0 <= j < |ks| && ks[j] == InsertAll(seen, count, ks).key && (ks[j] in seen || ks[j] in ks[..j])
    decreases |ks|
  {
    var k := ks[0];
    if k in seen {
      assert ks[0] == InsertAll(seen, count, ks).key;
    } else {
      var tail := ks[1..];
      InsertAllReportsRepeat(seen + {k}, count + 1, tail);
      var r := InsertAll(seen + {k}, count + 1, tail);
      var j :| 0 <= j < |tail| && tail[j] == r.key && (tail[j] in seen + {k} || tail[j] in tail[..j]);
      assert ks[j + 1] == r.key;
      assert ks[..j + 1] == [k] + tail[..j];
    }
  }
}
