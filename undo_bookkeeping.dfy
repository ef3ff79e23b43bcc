/** The counters the snapshot tests keep while they mutate the table between streamMore
    calls and undo or release undo quanta. The table and the undo log are the engine's;
    the model keeps them as the set of live keys and the set that was live when the
    current undo quantum began, which is what an undo restores. Random choices
    (rand()) are parameters. */
module UndoBookkeeping {
  import opened Wire
  import opened KeySets

  /** `rand() % 2` in doRandomUndo. */
  datatype UndoChoice = UndoLastQuantum | ReleaseLastQuantum

  /** `rand() % 3` in doRandomTableMutation. */
  datatype MutationChoice = DeleteTuple | InsertTuple | UpdateTuple

  /** An update: the tuple found and the tuple written over it. */
  datatype Update = Update(from: Key, to: Key)

  /** Primary keys are int32 values drawn from a counter. */
  const PRIMARY_KEY_LIMIT: int := 0x8000_0000

  /** Every key was drawn from a counter now at `bound`, and primary keys are unique. */
  ghost predicate UniqueKeysBelow(s: set<Key>, bound: int)
  {
    && (forall k :: k in s ==> 0 <= k.pk < bound)
    && (forall a, b :: a in s && b in s && a.pk == b.pk ==> a == b)
  }

  /** The keys addRandomUniqueTuples creates for `values` with the counter at `first`. */
  function FreshKeys(first: nat, values: seq<int32>): (ks: seq<Key>)
    requires first + |values| <= PRIMARY_KEY_LIMIT
    ensures |ks| == |values|
    ensures forall i :: 0 <= i < |values| ==> ks[i] == Key(first + i, values[i])
  {
    seq(|values|, i requires 0 <= i < |values| => Key(first + i, values[i]))
  }

  /** Keys drawn from the counter are new to a table whose keys were drawn before, they
      are pairwise different, and the table stays well formed with the advanced counter. */
  lemma FreshKeysExtend(s: set<Key>, first: nat, values: seq<int32>)
    requires first + |values| <= PRIMARY_KEY_LIMIT && UniqueKeysBelow(s, first)
    ensures Distinct(FreshKeys(first, values)) && DisjointFrom(FreshKeys(first, values), s)
    ensures UniqueKeysBelow(s + Elements(FreshKeys(first, values)), first + |values|)
    ensures |s + Elements(FreshKeys(first, values))| == |s| + |values|
  {
    var ks := FreshKeys(first, values);
    assert Distinct(ks) by {
      forall i, j | 0 <= i < j < |ks| ensures ks[i] != ks[j] {
        assert ks[i].pk == first + i && ks[j].pk == first + j;
      }
    }
    DistinctCardinality(ks);
    assert s !! Elements(ks);
  }

  /** The insertion loop of addRandomUniqueTuples on the table's key set: one tuple per
      value, each taking the next primary key. */
  method DrawKeys(first: nat, values: seq<int32>, table: set<Key>) returns (added: seq<Key>, grown: set<Key>)
    requires first + |values| <= PRIMARY_KEY_LIMIT
    ensures added == FreshKeys(first, values) && grown == table + Elements(added)
  {
    added, grown := [], table;
    while |added| < |values|
      invariant |added| <= |values| && added == FreshKeys(first, values[..|added|])
      invariant grown == table + Elements(added)
    {
      var key := Key(first + |added|, values[|added|]);
      ElementsSnoc(added, key);
      assert FreshKeys(first, values[..|added| + 1]) == added + [key];
      grown := grown + {key};
      added := added + [key];
    }
    assert values[..|added|] == values;
  }

  class MutationHarness {
    var tuplesInserted: int
    var tuplesUpdated: int
    var tuplesDeleted: int
    var tuplesInsertedInLastUndo: int
    var tuplesDeletedInLastUndo: int
    var undoToken: int
    /** The primary-key counter from which every inserted tuple takes its key. */
    var nextPrimaryKey: int
    /** The number of tuples the test loads before it starts mutating. */
    const tupleCount: nat
    /** The keys of the table's live tuples. */
    var rows: set<Key>
    /** The keys that were live when the current undo quantum began. */
    var quantumStart: set<Key>

    /** Every key was drawn from the counter, and the primary key index keeps primary
        keys unique, in the table and in the state an undo would restore. */
    ghost predicate TableInvariant()
      reads this
    {
      0 <= nextPrimaryKey <= PRIMARY_KEY_LIMIT && UniqueKeysBelow(rows, nextPrimaryKey) && UniqueKeysBelow(quantumStart, nextPrimaryKey)
    }

    /** The counters account for the table: every insertion and deletion since loading
        is counted, and the per-quantum counters account for the difference between the
        table and the state at the start of the quantum. */
    ghost predicate CountsAgree()
      reads this
    {
      && |rows| == tupleCount + tuplesInserted - tuplesDeleted
      && |quantumStart| == |rows| - tuplesInsertedInLastUndo + tuplesDeletedInLastUndo
    }

    /** The mutation counters and the undo token. */
    ghost function Counters(): (int, int, int, int, int, int)
      reads this
    {
      (tuplesInserted, tuplesUpdated, tuplesDeleted, tuplesInsertedInLastUndo, tuplesDeletedInLastUndo, undoToken)
    }

    ghost predicate Valid()
      reads this
    {
      TableInvariant() && CountsAgree()
    }

    /** The fixture (counters and undo token at zero) merged with each test's first
        step, loading `tupleCount` tuples with consecutive primary keys. */
    constructor (firstPrimaryKey: nat, initialValues: seq<int32>)
      requires firstPrimaryKey + |initialValues| <= PRIMARY_KEY_LIMIT
      ensures Valid()
      ensures tupleCount == |initialValues| && |rows| == |initialValues|
      ensures rows == Elements(FreshKeys(firstPrimaryKey, initialValues)) && quantumStart == rows
      ensures nextPrimaryKey == firstPrimaryKey + |initialValues|
      ensures Counters() == (0, 0, 0, 0, 0, 0)
    {
      tuplesInserted, tuplesUpdated, tuplesDeleted := 0, 0, 0;
      tuplesInsertedInLastUndo, tuplesDeletedInLastUndo := 0, 0;
      undoToken := 0;
      nextPrimaryKey := firstPrimaryKey;
      tupleCount := |initialValues|;
      rows, quantumStart := {}, {};
      new;
      var added := AddRandomUniqueTuples(initialValues);
      quantumStart := rows;
    }

    /** addRandomUniqueTuples: one insertion per value, each with the next primary key. */
    method AddRandomUniqueTuples(values: seq<int32>) returns (added: seq<Key>)
      requires TableInvariant() && nextPrimaryKey + |values| <= PRIMARY_KEY_LIMIT
      modifies this
      ensures TableInvariant()
      ensures added == FreshKeys(old(nextPrimaryKey), values)
      ensures DisjointFrom(added, old(rows)) && Distinct(added)
      ensures rows == old(rows) + Elements(added) && |rows| == old(|rows|) + |values|
      ensures nextPrimaryKey == old(nextPrimaryKey) + |values|
      ensures quantumStart == old(quantumStart) && Counters() == old(Counters())
    {
      var first: nat := nextPrimaryKey;
      var table;
      added, table := DrawKeys(first, values, rows);
      FreshKeysExtend(rows, first, values);
      rows, nextPrimaryKey := table, first + |values|;
    }

    /** doRandomUndo: undoing the quantum takes back exactly the insertions and
        deletions counted since the last boundary (and the table returns to its state
        then); releasing keeps both. Either way a new quantum begins with zeroed
        per-quantum counters and the next undo token. */
    method RandomUndo(choice: UndoChoice)
      requires Valid()
      modifies this
      ensures Valid()
      ensures choice == UndoLastQuantum ==>
        && rows == old(quantumStart)
        && tuplesInserted == old(tuplesInserted) - old(tuplesInsertedInLastUndo)
        && tuplesDeleted == old(tuplesDeleted) - old(tuplesDeletedInLastUndo)
      ensures choice == ReleaseLastQuantum ==>
        rows == old(rows) && tuplesInserted == old(tuplesInserted) && tuplesDeleted == old(tuplesDeleted)
      ensures quantumStart == rows && undoToken == old(undoToken) + 1
      ensures tuplesInsertedInLastUndo == 0 && tuplesDeletedInLastUndo == 0
      ensures tuplesUpdated == old(tuplesUpdated) && nextPrimaryKey == old(nextPrimaryKey)
    {
      if choice == UndoLastQuantum {
        rows := quantumStart;
        tuplesDeleted := tuplesDeleted - tuplesDeletedInLastUndo;
        tuplesInserted := tuplesInserted - tuplesInsertedInLastUndo;
      }
      undoToken := undoToken + 1;
      quantumStart := rows;
      tuplesDeletedInLastUndo := 0;
      tuplesInsertedInLastUndo := 0;
    }

    /** The undo step of the undo-everything test: the quantum is undone and the token
        advanced, but the counters are left as they are (that test does not compare the
        live count). */
    method UndoEverything()
      requires TableInvariant()
      modifies this
      ensures TableInvariant()
      ensures rows == old(quantumStart) && quantumStart == rows && undoToken == old(undoToken) + 1
      ensures tuplesInserted == old(tuplesInserted) && tuplesDeleted == old(tuplesDeleted)
      ensures tuplesUpdated == old(tuplesUpdated)
      ensures tuplesInsertedInLastUndo == old(tuplesInsertedInLastUndo)
      ensures tuplesDeletedInLastUndo == old(tuplesDeletedInLastUndo)
      ensures nextPrimaryKey == old(nextPrimaryKey)
    {
      rows := quantumStart;
      undoToken := undoToken + 1;
    }

    /** doRandomDelete: `victim` is what getRandomTuple found, if anything. A deletion is
        counted only when a tuple was found. */
    method RandomDelete(victim: Option<Key>) returns (deleted: Option<Key>)
      requires TableInvariant()
      requires victim.Some? ==> victim.value in rows
      modifies this
      ensures TableInvariant() && deleted == victim
      ensures victim.Some? ==>
        && rows == old(rows) - {victim.value} && |rows| == old(|rows|) - 1
        && tuplesDeleted == old(tuplesDeleted) + 1
        && tuplesDeletedInLastUndo == old(tuplesDeletedInLastUndo) + 1
      ensures victim.None? ==>
        rows == old(rows) && tuplesDeleted == old(tuplesDeleted)
        && tuplesDeletedInLastUndo == old(tuplesDeletedInLastUndo)
      ensures tuplesInserted == old(tuplesInserted) && tuplesUpdated == old(tuplesUpdated)
      ensures tuplesInsertedInLastUndo == old(tuplesInsertedInLastUndo)
      ensures quantumStart == old(quantumStart) && undoToken == old(undoToken)
      ensures nextPrimaryKey == old(nextPrimaryKey)
      ensures old(CountsAgree()) ==> CountsAgree()
    {
      deleted := victim;
      if victim.Some? {
        rows := rows - {victim.value};
        tuplesDeleted := tuplesDeleted + 1;
        tuplesDeletedInLastUndo := tuplesDeletedInLastUndo + 1;
      }
    }

    /** doRandomInsert: one new tuple with a fresh primary key, always counted. */
    method RandomInsert(value: int32) returns (inserted: Key)
      requires TableInvariant() && nextPrimaryKey < PRIMARY_KEY_LIMIT
      modifies this
      ensures TableInvariant()
      ensures inserted == Key(old(nextPrimaryKey), value) && inserted !in old(rows)
      ensures rows == old(rows) + {inserted} && |rows| == old(|rows|) + 1
      ensures tuplesInserted == old(tuplesInserted) + 1
      ensures tuplesInsertedInLastUndo == old(tuplesInsertedInLastUndo) + 1
      ensures tuplesDeleted == old(tuplesDeleted) && tuplesUpdated == old(tuplesUpdated)
      ensures tuplesDeletedInLastUndo == old(tuplesDeletedInLastUndo)
      ensures quantumStart == old(quantumStart) && undoToken == old(undoToken)
      ensures nextPrimaryKey == old(nextPrimaryKey) + 1
      ensures old(CountsAgree()) ==> CountsAgree()
    {
      var added := AddRandomUniqueTuples([value]);
      inserted := added[0];
      assert Elements(added) == {inserted};
      tuplesInserted := tuplesInserted + 1;
      tuplesInsertedInLastUndo := tuplesInsertedInLastUndo + 1;
    }

    /** doRandomUpdate: the tuple found keeps its primary key and gets a new column 1;
        only the update counter moves, and the table keeps its size. */
    method RandomUpdate(victim: Option<Key>, value: int32) returns (update: Option<Update>)
      requires TableInvariant()
      requires victim.Some? ==> victim.value in rows
      modifies this
      ensures TableInvariant()
      ensures victim.Some? ==>
        && update == Some(Update(victim.value, Key(victim.value.pk, value)))
        && rows == old(rows) - {victim.value} + {Key(victim.value.pk, value)}
        && |rows| == old(|rows|)
        && tuplesUpdated == old(tuplesUpdated) + 1
      ensures victim.None? ==> update == None && rows == old(rows) && tuplesUpdated == old(tuplesUpdated)
      ensures tuplesInserted == old(tuplesInserted) && tuplesDeleted == old(tuplesDeleted)
      ensures tuplesInsertedInLastUndo == old(tuplesInsertedInLastUndo)
      ensures tuplesDeletedInLastUndo == old(tuplesDeletedInLastUndo)
      ensures quantumStart == old(quantumStart) && undoToken == old(undoToken)
      ensures nextPrimaryKey == old(nextPrimaryKey)
      ensures old(CountsAgree()) ==> CountsAgree()
    {
      update := None;
      if victim.Some? {
        var from := victim.value;
        var to := Key(from.pk, value);
        assert to !in rows - {from};
        rows := rows - {from} + {to};
        update := Some(Update(from, to));
        tuplesUpdated := tuplesUpdated + 1;
      }
    }

    /** doRandomTableMutation: one delete, insert or update. `victim` is the tuple
        getRandomTuple would find and `value` the random column-1 value. */
    method RandomTableMutation(choice: MutationChoice, victim: Option<Key>, value: int32)
      requires TableInvariant()
      requires choice == InsertTuple ==> nextPrimaryKey < PRIMARY_KEY_LIMIT
      requires victim.Some? ==> victim.value in rows
      modifies this
      ensures TableInvariant()
      ensures old(CountsAgree()) ==> CountsAgree()
      ensures choice == DeleteTuple && victim.Some? ==>
        && rows == old(rows) - {victim.value} && |rows| == old(|rows|) - 1
        && tuplesDeleted == old(tuplesDeleted) + 1
        && tuplesDeletedInLastUndo == old(tuplesDeletedInLastUndo) + 1
      ensures choice == InsertTuple ==>
        && Key(old(nextPrimaryKey), value) !in old(rows)
        && rows == old(rows) + {Key(old(nextPrimaryKey), value)} && |rows| == old(|rows|) + 1
        && tuplesInserted == old(tuplesInserted) + 1
        && tuplesInsertedInLastUndo == old(tuplesInsertedInLastUndo) + 1
      ensures choice == UpdateTuple && victim.Some? ==>
        && rows == old(rows) - {victim.value} + {Key(victim.value.pk, value)} && |rows| == old(|rows|)
        && tuplesUpdated == old(tuplesUpdated) + 1
      ensures choice != InsertTuple && victim.None? ==> rows == old(rows)
      ensures choice != DeleteTuple || victim.None? ==>
        tuplesDeleted == old(tuplesDeleted) && tuplesDeletedInLastUndo == old(tuplesDeletedInLastUndo)
      ensures choice != InsertTuple ==>
        tuplesInserted == old(tuplesInserted) && tuplesInsertedInLastUndo == old(tuplesInsertedInLastUndo)
      ensures choice != UpdateTuple || victim.None? ==> tuplesUpdated == old(tuplesUpdated)
      ensures nextPrimaryKey == old(nextPrimaryKey) + (if choice == InsertTuple then 1 else 0)
      ensures quantumStart == old(quantumStart) && undoToken == old(undoToken)
    {
      match choice
      case DeleteTuple =>
        var _ := RandomDelete(victim);
      case InsertTuple =>
        var _ := RandomInsert(value);
      case UpdateTuple =>
        var _ := RandomUpdate(victim, value);
    }

    /** `tupleCount + (m_tuplesInserted - m_tuplesDeleted)`: the live row count the
        tests expect after a snapshot round. */
    function ExpectedLiveCount(): (n: int)
      reads this
      requires CountsAgree()
      ensures n == |rows|
    {
      tupleCount + (tuplesInserted - tuplesDeleted)
    }
  }
}
