/**
 * An abstract SQLite table as the loader sees it: the rows stored so far and
 * the set of uniqueness keys they hold. On a table without a generated id the
 * first column is the INTEGER PRIMARY KEY, so its value is the key; a NULL
 * there makes SQLite store the row under the next rowid, one more than the
 * largest integer id stored (1 on an empty table), and that id is then taken
 * like any other. Tables with a generated id have no other unique column and
 * never conflict.
 */
module TableStore {

  import opened Wrappers
  import opened RowPrep

  /**
   * What the database enforces for one table: whether the first column is a
   * uniqueness key, and which records it refuses with an integrity error other
   * than a UNIQUE failure (a datatype mismatch on the key, for one).
   */
  datatype Constraints = Constraints(keyed: bool, rejects: Record -> bool)

  /** The outcome of an INSERT: success, a UNIQUE failure, or another integrity error. */
  datatype Status = Ok | UniqueViolation | OtherViolation

  datatype TableState = TableState(rows: seq<Record>, keys: set<Value>)

  datatype Step = Step(status: Status, state: TableState)

  /** A freshly created table. */
  const Empty := TableState([], {})

  function KeyOf(c: Constraints, r: Record): Option<Value>
  {
    if c.keyed && |r| > 0 && r[0] != Null then Some(r[0]) else None
  }

  /** Whether SQLite chooses the id of `r`: a NULL in the key column. */
  predicate Generates(c: Constraints, r: Record)
  {
    c.keyed && |r| > 0 && r[0] == Null
  }

  /** No record of `batch` leaves its id to SQLite. */
  predicate NoGeneratedIds(c: Constraints, batch: seq<Record>)
  {
    forall r :: r in batch ==> !Generates(c, r)
  }

  /** The largest integer id among `rows`, if any. */
  function MaxRowid(c: Constraints, rows: seq<Record>): Option<int>
    decreases |rows|
  {
    if rows == [] then None
    else
      var m := MaxRowid(c, rows[..|rows| - 1]);
      match KeyOf(c, rows[|rows| - 1])
      case Some(Int(v)) => if m.Some? && m.value >= v then m else Some(v)
      case _ => m
  }

  /** The rowid SQLite gives a row inserted with a NULL id. */
  function NextRowid(c: Constraints, rows: seq<Record>): int
  {
    if MaxRowid(c, rows).Some? then MaxRowid(c, rows).value + 1 else 1
  }

  /**
   * The next rowid is one more than the largest integer id stored, or 1 when
   * none is stored.
   */
  lemma {:induction false} NextRowidBound(c: Constraints, rows: seq<Record>)
    ensures forall i :: 0 <= i < |rows| && KeyOf(c, rows[i]).Some? && KeyOf(c, rows[i]).value.Int? ==>
              KeyOf(c, rows[i]).value.i < NextRowid(c, rows)
    ensures MaxRowid(c, rows).Some? ==> exists i :: 0 <= i < |rows| && KeyOf(c, rows[i]) == Some(Int(NextRowid(c, rows) - 1))
    ensures MaxRowid(c, rows).None? ==>
              NextRowid(c, rows) == 1 && forall i :: 0 <= i < |rows| ==> !(KeyOf(c, rows[i]).Some? && KeyOf(c, rows[i]).value.Int?)
    decreases |rows|
  {
    if rows != [] {
      var front, last := rows[..|rows| - 1], rows[|rows| - 1];
      NextRowidBound(c, front);
      assert forall i :: 0 <= i < |front| ==> rows[i] == front[i];
      if KeyOf(c, last).Some? && KeyOf(c, last).value.Int? {
        var v := KeyOf(c, last).value.i;
        if MaxRowid(c, front).Some? && MaxRowid(c, front).value >= v {
          assert NextRowid(c, rows) == NextRowid(c, front);
        } else {
          assert NextRowid(c, rows) == v + 1;
          if MaxRowid(c, front).Some? {
            assert NextRowid(c, front) <= v;
          }
          assert KeyOf(c, rows[|rows| - 1]) == Some(Int(NextRowid(c, rows) - 1));
        }
      } else {
        assert NextRowid(c, rows) == NextRowid(c, front);
      }
    }
  }

  /** The record as SQLite stores it: a NULL id is replaced by the next rowid. */
  function Written(c: Constraints, rows: seq<Record>, r: Record): (w: Record)
    ensures |w| == |r| && (|r| > 0 ==> w[1..] == r[1..])
    ensures !Generates(c, r) ==> w == r
    ensures Generates(c, r) ==> KeyOf(c, w) == Some(Int(NextRowid(c, rows)))
  {
    if Generates(c, r) then [Int(NextRowid(c, rows))] + r[1..] else r
  }

  /** The records of `batch` as stored one after the other after `rows`. */
  function Fill(c: Constraints, rows: seq<Record>, batch: seq<Record>): seq<Record>
    decreases |batch|
  {
    if batch == [] then []
    else
      var w := Written(c, rows, batch[0]);
      [w] + Fill(c, rows + [w], batch[1..])
  }

  /**
   * Storing a batch keeps its length and every record but a NULL id, which
   * becomes an integer; a batch that leaves no id to SQLite is stored as it is.
   */
  lemma {:induction false} FillShape(c: Constraints, rows: seq<Record>, batch: seq<Record>)
    ensures |Fill(c, rows, batch)| == |batch|
    ensures forall i :: 0 <= i < |batch| ==>
              |Fill(c, rows, batch)[i]| == |batch[i]|
              && (if Generates(c, batch[i]) then KeyOf(c, Fill(c, rows, batch)[i]).Some? && KeyOf(c, Fill(c, rows, batch)[i]).value.Int?
                  else Fill(c, rows, batch)[i] == batch[i])
    ensures NoGeneratedIds(c, batch) ==> Fill(c, rows, batch) == batch
    decreases |batch|
  {
    if batch != [] {
      var w := Written(c, rows, batch[0]);
      var f := Fill(c, rows, batch);
      FillShape(c, rows + [w], batch[1..]);
      assert f == [w] + Fill(c, rows + [w], batch[1..]);
      assert forall i :: 1 <= i < |batch| ==> f[i] == Fill(c, rows + [w], batch[1..])[i - 1] && batch[i] == batch[1..][i - 1];
      if NoGeneratedIds(c, batch) {
        assert batch[0] in batch;
        assert NoGeneratedIds(c, batch[1..]) by {
          forall r | r in batch[1..] ensures !Generates(c, r) {
            assert r in batch;
          }
        }
        assert [batch[0]] + batch[1..] == batch;
      }
    }
  }

  /** Storing a batch keeps every id it gives explicitly. */
  lemma FillKeys(c: Constraints, rows: seq<Record>, batch: seq<Record>)
    ensures KeysOf(c, batch) <= KeysOf(c, Fill(c, rows, batch))
  {
    var f := Fill(c, rows, batch);
    FillShape(c, rows, batch);
    forall k | k in KeysOf(c, batch) ensures k in KeysOf(c, f) {
      var i :| 0 <= i < |batch| && KeyOf(c, batch[i]).Some? && KeyOf(c, batch[i]).value == k;
      assert f[i] == batch[i];
    }
  }

  /** The keys held by some of `rows`. */
  function KeysOf(c: Constraints, rows: seq<Record>): set<Value>
  {
    set i | 0 <= i < |rows| && KeyOf(c, rows[i]).Some? :: KeyOf(c, rows[i]).value
  }

  /** No key is held by two rows. */
  predicate DistinctKeys(c: Constraints, rows: seq<Record>)
  {
    forall i, j :: 0 <= i < j < |rows| && KeyOf(c, rows[i]).Some? ==> KeyOf(c, rows[i]) != KeyOf(c, rows[j])
  }

  /** The key set is the keys of the stored rows, each held once. */
  predicate Consistent(c: Constraints, s: TableState)
  {
    s.keys == KeysOf(c, s.rows) && DistinctKeys(c, s.rows)
  }

  /** Every record of `rows` carries a key. */
  predicate AllKeyed(c: Constraints, rows: seq<Record>)
  {
    forall r :: r in rows ==> KeyOf(c, r).Some?
  }

  /**
   * One INSERT. A row with a NULL id is stored under the next rowid, which
   * SQLite picks free, so only an explicit id can fail on UNIQUE.
   */
  function Insert(c: Constraints, s: TableState, r: Record): (st: Step)
    ensures st.status == Ok ==>
              st.state == TableState(s.rows + [Written(c, s.rows, r)], s.keys + KeysOf(c, [Written(c, s.rows, r)]))
    ensures st.status != Ok ==> st.state == s
    ensures st.status == OtherViolation <==> c.rejects(r)
    ensures st.status == UniqueViolation <==> !c.rejects(r) && KeyOf(c, r).Some? && KeyOf(c, r).value in s.keys
  {
    if c.rejects(r) then Step(OtherViolation, s)
    else if Generates(c, r) then
      var w := Written(c, s.rows, r);
      assert [w][0] == w;
      assert KeysOf(c, [w]) == {Int(NextRowid(c, s.rows))};
      Step(Ok, TableState(s.rows + [w], s.keys + {Int(NextRowid(c, s.rows))}))
    else
      match KeyOf(c, r)
      case Some(k) =>
        if k in s.keys then Step(UniqueViolation, s)
        else
          assert [r][0] == r;
          assert k in KeysOf(c, [r]);
          assert KeysOf(c, [r]) == {k};
          Step(Ok, TableState(s.rows + [r], s.keys + {k}))
      case None =>
        assert KeysOf(c, [r]) == {};
        Step(Ok, TableState(s.rows + [r], s.keys))
  }

  /** `executemany`: rows in order until the first failure; the rows before it stay written. */
  function InsertMany(c: Constraints, s: TableState, batch: seq<Record>): Step
    decreases |batch|
  {
    if batch == [] then Step(Ok, s)
    else
      var st := Insert(c, s, batch[0]);
      if st.status != Ok then st else InsertMany(c, st.state, batch[1..])
  }

  /**
   * Row-by-row insertion that skips every row failing on UNIQUE and stops at
   * any other integrity error.
   */
  function InsertEach(c: Constraints, s: TableState, batch: seq<Record>): Step
    decreases |batch|
  {
    if batch == [] then Step(Ok, s)
    else
      var st := Insert(c, s, batch[0]);
      if st.status == OtherViolation then st else InsertEach(c, st.state, batch[1..])
  }

  // ---------------------------------------------------------------------------
  // Keys

  lemma KeysOfAppend(c: Constraints, a: seq<Record>, b: seq<Record>)
    ensures KeysOf(c, a + b) == KeysOf(c, a) + KeysOf(c, b)
  {
    var ab := a + b;
    forall k | k in KeysOf(c, ab) ensures k in KeysOf(c, a) + KeysOf(c, b) {
      var i :| 0 <= i < |ab| && KeyOf(c, ab[i]).Some? && KeyOf(c, ab[i]).value == k;
      if i < |a| {
        assert ab[i] == a[i];
      } else {
        assert ab[i] == b[i - |a|];
      }
    }
    forall k | k in KeysOf(c, a) + KeysOf(c, b) ensures k in KeysOf(c, ab) {
      if k in KeysOf(c, a) {
        var i :| 0 <= i < |a| && KeyOf(c, a[i]).Some? && KeyOf(c, a[i]).value == k;
        assert ab[i] == a[i];
      } else {
        var i :| 0 <= i < |b| && KeyOf(c, b[i]).Some? && KeyOf(c, b[i]).value == k;
        assert ab[|a| + i] == b[i];
      }
    }
  }

  /** An INSERT keeps the key set equal to the stored keys, each held once. */
  lemma InsertConsistent(c: Constraints, s: TableState, r: Record)
    requires Consistent(c, s)
    ensures Consistent(c, Insert(c, s, r).state)
  {
    var st := Insert(c, s, r);
    if st.status == Ok {
      var w := Written(c, s.rows, r);
      KeysOfAppend(c, s.rows, [w]);
      NextRowidBound(c, s.rows);
      var rows := s.rows + [w];
      forall i, j | 0 <= i < j < |rows| && KeyOf(c, rows[i]).Some?
        ensures KeyOf(c, rows[i]) != KeyOf(c, rows[j])
      {
        if j == |rows| - 1 {
          assert rows[i] == s.rows[i];
          assert KeyOf(c, rows[i]).value in s.keys;
        } else {
          assert rows[i] == s.rows[i] && rows[j] == s.rows[j];
        }
      }
    }
  }

  /** Each key is stored at most once, however a batch is inserted. */
  lemma {:induction false} InsertEachConsistent(c: Constraints, s: TableState, batch: seq<Record>)
    requires Consistent(c, s)
    ensures Consistent(c, InsertEach(c, s, batch).state)
    ensures Consistent(c, InsertMany(c, s, batch).state)
    decreases |batch|
  {
    if batch != [] {
      InsertConsistent(c, s, batch[0]);
      InsertEachConsistent(c, Insert(c, s, batch[0]).state, batch[1..]);
    }
  }

  // ---------------------------------------------------------------------------
  // executemany

  /**
   * A bulk insert that succeeds appends the whole batch, as stored, and all
   * its keys.
   */
  lemma {:induction false} InsertManyOk(c: Constraints, s: TableState, batch: seq<Record>)
    requires InsertMany(c, s, batch).status == Ok
    ensures InsertMany(c, s, batch).state
            == TableState(s.rows + Fill(c, s.rows, batch), s.keys + KeysOf(c, Fill(c, s.rows, batch)))
    decreases |batch|
  {
    if batch != [] {
      var st := Insert(c, s, batch[0]);
      var w := Written(c, s.rows, batch[0]);
      InsertManyOk(c, st.state, batch[1..]);
      var rest := Fill(c, s.rows + [w], batch[1..]);
      KeysOfAppend(c, [w], rest);
      assert s.rows + [w] + rest == s.rows + ([w] + rest);
    }
  }

  /**
   * A bulk insert that fails has written a prefix of the batch, all of it
   * successfully, and failed on the row right after it.
   */
  lemma {:induction false} InsertManyStops(c: Constraints, s: TableState, batch: seq<Record>)
    returns (k: nat)
    requires InsertMany(c, s, batch).status != Ok
    ensures k < |batch|
    ensures InsertMany(c, s, batch[..k]) == Step(Ok, InsertMany(c, s, batch).state)
    ensures Insert(c, InsertMany(c, s, batch).state, batch[k]).status == InsertMany(c, s, batch).status
    decreases |batch|
  {
    var st := Insert(c, s, batch[0]);
    if st.status != Ok {
      k := 0;
    } else {
      var k' := InsertManyStops(c, st.state, batch[1..]);
      k := k' + 1;
      assert batch[..k][0] == batch[0] && batch[..k][1..] == batch[1..][..k'];
      assert batch[k] == batch[1..][k'];
    }
  }

  // ---------------------------------------------------------------------------
  // Row-by-row insertion

  /** Row-by-row insertion never reports a UNIQUE failure, and fails exactly when some row is refused otherwise. */
  lemma {:induction false} InsertEachStatus(c: Constraints, s: TableState, batch: seq<Record>)
    ensures InsertEach(c, s, batch).status != UniqueViolation
    ensures InsertEach(c, s, batch).status == Ok <==> forall i :: 0 <= i < |batch| ==> !c.rejects(batch[i])
    decreases |batch|
  {
    if batch != [] {
      var st := Insert(c, s, batch[0]);
      InsertEachStatus(c, st.state, batch[1..]);
      assert forall i :: 1 <= i < |batch| ==> batch[i] == batch[1..][i - 1];
    }
  }

  /**
   * After row-by-row insertion the key set holds the old keys and the batch's
   * keys; it is exactly those when no id of the batch is left to SQLite.
   */
  lemma {:induction false} InsertEachKeys(c: Constraints, s: TableState, batch: seq<Record>)
    requires InsertEach(c, s, batch).status == Ok
    ensures s.keys + KeysOf(c, batch) <= InsertEach(c, s, batch).state.keys
    ensures NoGeneratedIds(c, batch) ==> InsertEach(c, s, batch).state.keys == s.keys + KeysOf(c, batch)
    decreases |batch|
  {
    if batch != [] {
      var st := Insert(c, s, batch[0]);
      InsertEachKeys(c, st.state, batch[1..]);
      KeysOfAppend(c, [batch[0]], batch[1..]);
      assert [batch[0]] + batch[1..] == batch;
      assert [batch[0]][0] == batch[0];
      if KeyOf(c, batch[0]).Some? {
        assert KeysOf(c, [batch[0]]) == {KeyOf(c, batch[0]).value};
      } else {
        assert KeysOf(c, [batch[0]]) == {};
      }
      if NoGeneratedIds(c, batch) {
        assert batch[0] in batch;
        assert NoGeneratedIds(c, batch[1..]) by {
          forall r | r in batch[1..] ensures !Generates(c, r) {
            assert r in batch;
          }
        }
      }
    }
  }

  /** Row-by-row insertion only appends, at most one row per batch row. */
  lemma {:induction false} InsertEachRows(c: Constraints, s: TableState, batch: seq<Record>)
    ensures s.rows <= InsertEach(c, s, batch).state.rows
    ensures |InsertEach(c, s, batch).state.rows| <= |s.rows| + |batch|
    ensures !c.keyed && InsertEach(c, s, batch).status == Ok ==> InsertEach(c, s, batch).state.rows == s.rows + batch
    decreases |batch|
  {
    if batch != [] {
      var st := Insert(c, s, batch[0]);
      InsertEachRows(c, st.state, batch[1..]);
      assert s.rows + [batch[0]] + batch[1..] == s.rows + batch;
    }
  }

  /** Row-by-row insertion of `a + b` is that of `a` followed, if it succeeded, by that of `b`. */
  lemma {:induction false} InsertEachAppend(c: Constraints, s: TableState, a: seq<Record>, b: seq<Record>)
    ensures InsertEach(c, s, a + b) ==
            if InsertEach(c, s, a).status == Ok then InsertEach(c, InsertEach(c, s, a).state, b) else InsertEach(c, s, a)
    decreases |a|
  {
    if a == [] {
      assert a + b == b;
    } else {
      assert (a + b)[0] == a[0] && (a + b)[1..] == a[1..] + b;
      InsertEachAppend(c, Insert(c, s, a[0]).state, a[1..], b);
    }
  }

  /** A batch that writes without failure is inserted the same way in bulk and row by row. */
  lemma {:induction false} InsertManyOkIsInsertEach(c: Constraints, s: TableState, batch: seq<Record>)
    requires InsertMany(c, s, batch).status == Ok
    ensures InsertEach(c, s, batch) == InsertMany(c, s, batch)
    decreases |batch|
  {
    if batch != [] {
      InsertManyOkIsInsertEach(c, Insert(c, s, batch[0]).state, batch[1..]);
    }
  }

  /** Rows whose keys are already present are all skipped and leave the table as it was. */
  lemma {:induction false} InsertEachPresentKeys(c: Constraints, s: TableState, rows: seq<Record>)
    requires forall i :: 0 <= i < |rows| ==>
               !c.rejects(rows[i]) && KeyOf(c, rows[i]).Some? && KeyOf(c, rows[i]).value in s.keys
    ensures InsertEach(c, s, rows) == Step(Ok, s)
    decreases |rows|
  {
    if rows != [] {
      InsertEachPresentKeys(c, s, rows[1..]);
    }
  }

  /**
   * The fallback after a failed bulk insert: re-inserting the whole batch row
   * by row, on top of the rows the bulk insert already wrote, ends exactly as
   * row-by-row insertion of the batch from the state before it, provided every
   * row of the batch carries a key (the rows already written are then skipped
   * as duplicates).
   */
  lemma FallbackMatchesSkipping(c: Constraints, s: TableState, batch: seq<Record>)
    requires InsertMany(c, s, batch).status == UniqueViolation
    requires AllKeyed(c, batch)
    ensures InsertEach(c, InsertMany(c, s, batch).state, batch) == InsertEach(c, s, batch)
  {
    var m := InsertMany(c, s, batch);
    var k := InsertManyStops(c, s, batch);
    var written := batch[..k];
    var later := batch[k..];
    assert batch == written + later;
    InsertManyOk(c, s, written);
    assert NoGeneratedIds(c, written) by {
      forall r | r in written ensures !Generates(c, r) {
        assert r in batch;
      }
    }
    FillShape(c, s.rows, written);
    assert m.state == TableState(s.rows + written, s.keys + KeysOf(c, written));
    InsertManyOkIsInsertEach(c, s, written);
    InsertEachAppend(c, s, written, later);
    assert InsertEach(c, s, batch) == InsertEach(c, m.state, later);
    forall i | 0 <= i < |written|
      ensures !c.rejects(written[i]) && KeyOf(c, written[i]).Some? && KeyOf(c, written[i]).value in m.state.keys
    {
      WrittenNotRejected(c, s, written, i);
      assert written[i] == batch[i] && batch[i] in batch;
      assert KeyOf(c, written[i]).value in KeysOf(c, written);
    }
    InsertEachPresentKeys(c, m.state, written);
    InsertEachAppend(c, m.state, written, later);
  }

  /** No row that a successful bulk insert wrote was refused. */
  lemma {:induction false} WrittenNotRejected(c: Constraints, s: TableState, rows: seq<Record>, i: nat)
    requires InsertMany(c, s, rows).status == Ok
    requires i < |rows|
    ensures !c.rejects(rows[i])
    decreases |rows|
  {
    if i > 0 {
      WrittenNotRejected(c, Insert(c, s, rows[0]).state, rows[1..], i - 1);
    }
  }

  /**
   * Without a key on every row the fallback is not duplicate skipping: a row
   * with a NULL id written by the failed bulk insert is written again, under
   * the next rowid.
   */
  lemma NullKeyRowWrittenTwice()
    ensures var c := Constraints(true, _ => false);
            var s := TableState([[Int(1)]], {Int(1)});
            var batch := [[Null], [Int(1)]];
            InsertMany(c, s, batch).status == UniqueViolation
            && InsertEach(c, InsertMany(c, s, batch).state, batch).state.rows == [[Int(1)], [Int(2)], [Int(3)]]
            && InsertEach(c, s, batch).state.rows == [[Int(1)], [Int(2)]]
  {
    var c := Constraints(true, _ => false);
    var s := TableState([[Int(1)]], {Int(1)});
    var batch := [[Null], [Int(1)]];
    assert KeyOf(c, [Int(1)]) == Some(Int(1));
    assert KeyOf(c, [Int(2)]) == Some(Int(2));
    assert MaxRowid(c, [[Int(1)]]) == Some(1) by {
      assert [[Int(1)]][..0] == [];
    }
    assert Written(c, s.rows, [Null]) == [Int(2)];
    var m := Insert(c, s, [Null]);
    assert m.state.rows == [[Int(1)], [Int(2)]];
    assert MaxRowid(c, m.state.rows) == Some(2) by {
      assert m.state.rows[..1] == [[Int(1)]];
    }
    assert batch[1..] == [[Int(1)]];
    assert InsertMany(c, s, batch) == Step(UniqueViolation, m.state);
    assert Written(c, m.state.rows, [Null]) == [Int(3)];
    var again := Insert(c, m.state, [Null]);
    assert again.state.rows == [[Int(1)], [Int(2)], [Int(3)]];
    assert InsertEach(c, m.state, batch) == InsertEach(c, again.state, [[Int(1)]]);
    assert InsertEach(c, s, batch) == InsertEach(c, m.state, [[Int(1)]]);
  }

  // ---------------------------------------------------------------------------
  // The table as the cursor updates it

  class Table {
    const constraints: Constraints
    var rows: seq<Record>
    var keys: set<Value>

    function State(): TableState
      reads this
    {
      TableState(rows, keys)
    }

    ghost predicate Valid()
      reads this
    {
      Consistent(constraints, State())
    }

    /** CREATE TABLE: a new, empty table. */
    constructor (c: Constraints)
      ensures Valid() && constraints == c && State() == Empty
    {
      constraints := c;
      rows := [];
      keys := {};
    }

    /** `cursor.execute` of one INSERT. */
    method Execute(r: Record) returns (status: Status)
      requires Valid()
      modifies this
      ensures Valid()
      ensures Step(status, State()) == Insert(constraints, old(State()), r)
    {
      InsertConsistent(constraints, State(), r);
      var st := Insert(constraints, State(), r);
      status, rows, keys := st.status, st.state.rows, st.state.keys;
    }

    /** `cursor.executemany` of one INSERT over a batch. */
    method ExecuteMany(batch: seq<Record>) returns (status: Status)
      requires Valid()
      modifies this
      ensures Valid()
      ensures Step(status, State()) == InsertMany(constraints, old(State()), batch)
    {
      InsertEachConsistent(constraints, State(), batch);
      var st := InsertMany(constraints, State(), batch);
      status, rows, keys := st.status, st.state.rows, st.state.keys;
    }
  }
}
