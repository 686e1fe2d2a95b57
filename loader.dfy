/**
 * The database loader: every CSV data row is prepared, collected into batches
 * of 1000 and bulk-inserted; a batch whose bulk insert fails on UNIQUE is
 * re-inserted row by row, skipping duplicates, and counted as duplicates as a
 * whole. Any other integrity error ends the load.
 */
module Loader {

  import opened Wrappers
  import opened Registry
  import opened RowPrep
  import opened TableStore

  const BatchSize: nat := 1000

  // ---------------------------------------------------------------------------
  // Batching

  /** Consecutive batches of `BatchSize` rows; a last, shorter batch holds the rest. */
  function Batches<T>(rows: seq<T>): seq<seq<T>>
    decreases |rows|
  {
    if |rows| <= BatchSize then (if rows == [] then [] else [rows])
    else [rows[..BatchSize]] + Batches(rows[BatchSize..])
  }

  function Flatten<T>(bs: seq<seq<T>>): seq<T>
  {
    if bs == [] then [] else bs[0] + Flatten(bs[1..])
  }

  /** Every row is submitted exactly once and in file order. */
  lemma {:induction false} BatchesFlatten<T>(rows: seq<T>)
    ensures Flatten(Batches(rows)) == rows
    decreases |rows|
  {
    if |rows| > BatchSize {
      BatchesFlatten(rows[BatchSize..]);
      assert rows[..BatchSize] + rows[BatchSize..] == rows;
    }
  }

  /**
   * Every batch but the last holds exactly `BatchSize` rows and the last
   * between 1 and `BatchSize`; there are as many batches as the row count
   * divided by `BatchSize`, rounded up.
   */
  lemma {:induction false} BatchesSizes<T>(rows: seq<T>)
    ensures forall i :: 0 <= i < |Batches(rows)| ==> 1 <= |Batches(rows)[i]| <= BatchSize
    ensures forall i :: 0 <= i < |Batches(rows)| - 1 ==> |Batches(rows)[i]| == BatchSize
    ensures |Batches(rows)| == (|rows| + BatchSize - 1) / BatchSize
    decreases |rows|
  {
    if |rows| > BatchSize {
      var bs := Batches(rows);
      var rest := rows[BatchSize..];
      BatchesSizes(rest);
      assert bs == [rows[..BatchSize]] + Batches(rest);
      assert forall i :: 1 <= i < |bs| ==> bs[i] == Batches(rest)[i - 1];
    }
  }

  /** The last batch, flushed after the loop, is short exactly by the remainder of the row count. */
  lemma {:induction false} BatchesLast<T>(rows: seq<T>)
    requires |rows| % BatchSize != 0
    ensures |Batches(rows)| > 0 && |Batches(rows)[|Batches(rows)| - 1]| == |rows| % BatchSize
    decreases |rows|
  {
    if |rows| > BatchSize {
      var rest := rows[BatchSize..];
      assert |rows| % BatchSize == |rest| % BatchSize;
      BatchesLast(rest);
      assert Batches(rows) == [rows[..BatchSize]] + Batches(rest);
    }
  }

  /** A full batch at the front is the first batch. */
  lemma BatchesCons<T>(b: seq<T>, tail: seq<T>)
    requires |b| == BatchSize
    ensures Batches(b + tail) == [b] + Batches(tail)
  {
    var rows := b + tail;
    assert rows[..BatchSize] == b && rows[BatchSize..] == tail;
    if tail == [] {
      assert rows == b;
    }
  }

  // ---------------------------------------------------------------------------
  // The specification of a load

  /** The result of flushing one batch, and whether its bulk insert failed on UNIQUE. */
  datatype Flush = Flush(step: Step, conflicted: bool)

  /** A bulk insert, with the row-by-row fallback when it fails on UNIQUE. */
  function FlushBatch(c: Constraints, s: TableState, batch: seq<Record>): Flush
  {
    var m := InsertMany(c, s, batch);
    if m.status == UniqueViolation then Flush(InsertEach(c, m.state, batch), true) else Flush(m, false)
  }

  /** The table after a sequence of flushes, and the duplicate counter. */
  datatype Run = Run(step: Step, duplicates: nat)

  /** Flush the batches in order, stopping at the first failure; a conflicted batch counts all its rows. */
  function RunBatches(c: Constraints, s: TableState, bs: seq<seq<Record>>): Run
    decreases |bs|
  {
    if bs == [] then Run(Step(Ok, s), 0)
    else
      var f := FlushBatch(c, s, bs[0]);
      if f.step.status != Ok then Run(f.step, 0)
      else
        var rest := RunBatches(c, f.step.state, bs[1..]);
        Run(rest.step, (if f.conflicted then |bs[0]| else 0) + rest.duplicates)
  }

  /** The load of one table from its CSV data rows. */
  function LoadSpec(t: TableSpec, p: Parsers, c: Constraints, s: TableState, csvRows: seq<seq<string>>): Run
  {
    RunBatches(c, s, Batches(PrepareAll(t, p, csvRows)))
  }

  lemma {:induction false} RunBatchesAppend(c: Constraints, s: TableState, a: seq<seq<Record>>, b: seq<seq<Record>>)
    ensures RunBatches(c, s, a + b) ==
            var ra := RunBatches(c, s, a);
            if ra.step.status != Ok then ra
            else var rb := RunBatches(c, ra.step.state, b); Run(rb.step, ra.duplicates + rb.duplicates)
    decreases |a|
  {
    if a == [] {
      assert a + b == b;
    } else {
      assert (a + b)[0] == a[0] && (a + b)[1..] == a[1..] + b;
      var f := FlushBatch(c, s, a[0]);
      if f.step.status == Ok {
        RunBatchesAppend(c, f.step.state, a[1..], b);
      }
    }
  }

  /** A flush never ends on a UNIQUE failure: that failure is what the fallback absorbs. */
  lemma FlushStatus(c: Constraints, s: TableState, batch: seq<Record>)
    ensures FlushBatch(c, s, batch).step.status != UniqueViolation
  {
    var m := InsertMany(c, s, batch);
    if m.status == UniqueViolation {
      InsertEachStatus(c, m.state, batch);
    }
  }

  lemma {:induction false} RunStatus(c: Constraints, s: TableState, bs: seq<seq<Record>>)
    ensures RunBatches(c, s, bs).step.status != UniqueViolation
    decreases |bs|
  {
    if bs != [] {
      FlushStatus(c, s, bs[0]);
      var f := FlushBatch(c, s, bs[0]);
      if f.step.status == Ok {
        RunStatus(c, f.step.state, bs[1..]);
      }
    }
  }

  /**
   * When every batch row carries a key (or the table has no key at all), a
   * flush, fallback included, is exactly row-by-row insertion with duplicate
   * skipping.
   */
  lemma FlushIsInsertEach(c: Constraints, s: TableState, batch: seq<Record>)
    requires c.keyed ==> AllKeyed(c, batch)
    ensures FlushBatch(c, s, batch).step == InsertEach(c, s, batch)
  {
    var m := InsertMany(c, s, batch);
    if m.status == Ok {
      InsertManyOkIsInsertEach(c, s, batch);
    } else {
      var k := InsertManyStops(c, s, batch);
      if m.status == UniqueViolation {
        assert KeyOf(c, batch[k]).Some?;
        FallbackMatchesSkipping(c, s, batch);
      } else {
        assert batch == batch[..k] + batch[k..];
        InsertManyOkIsInsertEach(c, s, batch[..k]);
        InsertEachAppend(c, s, batch[..k], batch[k..]);
        assert batch[k..][0] == batch[k];
      }
    }
  }

  /** Under the same condition the whole load is row-by-row insertion of the prepared rows, in file order. */
  lemma {:induction false} RunIsInsertEach(c: Constraints, s: TableState, bs: seq<seq<Record>>)
    requires forall i :: 0 <= i < |bs| ==> (c.keyed ==> AllKeyed(c, bs[i]))
    ensures RunBatches(c, s, bs).step == InsertEach(c, s, Flatten(bs))
    decreases |bs|
  {
    if bs != [] {
      FlushIsInsertEach(c, s, bs[0]);
      InsertEachAppend(c, s, bs[0], Flatten(bs[1..]));
      var f := FlushBatch(c, s, bs[0]);
      if f.step.status == Ok {
        RunIsInsertEach(c, f.step.state, bs[1..]);
      }
    }
  }

  lemma {:induction false} FlattenMember<T>(bs: seq<seq<T>>, i: nat, x: T)
    requires i < |bs| && x in bs[i]
    ensures x in Flatten(bs)
    decreases |bs|
  {
    if i > 0 {
      FlattenMember(bs[1..], i - 1, x);
    }
  }

  /**
   * If every prepared record of a keyed table carries a key, the loaded table
   * is the row-by-row, duplicate-skipping insertion of the prepared rows;
   * on a table without a key this holds unconditionally.
   */
  lemma LoadIsInsertEach(t: TableSpec, p: Parsers, c: Constraints, s: TableState, csvRows: seq<seq<string>>)
    requires c.keyed ==> AllKeyed(c, PrepareAll(t, p, csvRows))
    ensures LoadSpec(t, p, c, s, csvRows).step == InsertEach(c, s, PrepareAll(t, p, csvRows))
  {
    var rows := PrepareAll(t, p, csvRows);
    var bs := Batches(rows);
    BatchesFlatten(rows);
    forall i | 0 <= i < |bs| ensures c.keyed ==> AllKeyed(c, bs[i]) {
      forall r | r in bs[i] ensures c.keyed ==> KeyOf(c, r).Some? {
        FlattenMember(bs, i, r);
      }
    }
    RunIsInsertEach(c, s, bs);
  }

  /**
   * After a successful flush the key set holds the old keys and the batch's
   * keys; it is exactly those when no id of the batch is left to SQLite.
   */
  lemma FlushKeys(c: Constraints, s: TableState, batch: seq<Record>)
    requires FlushBatch(c, s, batch).step.status == Ok
    ensures s.keys + KeysOf(c, batch) <= FlushBatch(c, s, batch).step.state.keys
    ensures NoGeneratedIds(c, batch) ==> FlushBatch(c, s, batch).step.state.keys == s.keys + KeysOf(c, batch)
  {
    var m := InsertMany(c, s, batch);
    if m.status == Ok {
      InsertManyOk(c, s, batch);
      FillShape(c, s.rows, batch);
      FillKeys(c, s.rows, batch);
    } else {
      var k := InsertManyStops(c, s, batch);
      var written := batch[..k];
      InsertManyOk(c, s, written);
      FillShape(c, s.rows, written);
      InsertEachKeys(c, m.state, batch);
      if NoGeneratedIds(c, batch) {
        assert NoGeneratedIds(c, written) by {
          forall r | r in written ensures !Generates(c, r) {
            assert r in batch;
          }
        }
        assert batch == written + batch[k..];
        KeysOfAppend(c, written, batch[k..]);
      }
    }
  }

  lemma {:induction false} FlattenKeys(c: Constraints, bs: seq<seq<Record>>)
    ensures KeysOf(c, Flatten(bs)) == if bs == [] then {} else KeysOf(c, bs[0]) + KeysOf(c, Flatten(bs[1..]))
  {
    if bs != [] {
      KeysOfAppend(c, bs[0], Flatten(bs[1..]));
    }
  }

  lemma {:induction false} RunKeys(c: Constraints, s: TableState, bs: seq<seq<Record>>)
    requires RunBatches(c, s, bs).step.status == Ok
    ensures s.keys + KeysOf(c, Flatten(bs)) <= RunBatches(c, s, bs).step.state.keys
    ensures NoGeneratedIds(c, Flatten(bs)) ==> RunBatches(c, s, bs).step.state.keys == s.keys + KeysOf(c, Flatten(bs))
    decreases |bs|
  {
    FlattenKeys(c, bs);
    if bs != [] {
      var f := FlushBatch(c, s, bs[0]);
      FlushKeys(c, s, bs[0]);
      RunKeys(c, f.step.state, bs[1..]);
      assert Flatten(bs) == bs[0] + Flatten(bs[1..]);
    }
  }

  /**
   * After a successful load the key set holds the old keys and the keys of all
   * prepared rows; it is exactly those when no prepared id is NULL.
   */
  lemma LoadKeys(t: TableSpec, p: Parsers, c: Constraints, s: TableState, csvRows: seq<seq<string>>)
    requires LoadSpec(t, p, c, s, csvRows).step.status == Ok
    ensures s.keys + KeysOf(c, PrepareAll(t, p, csvRows)) <= LoadSpec(t, p, c, s, csvRows).step.state.keys
    ensures NoGeneratedIds(c, PrepareAll(t, p, csvRows)) ==>
              LoadSpec(t, p, c, s, csvRows).step.state.keys == s.keys + KeysOf(c, PrepareAll(t, p, csvRows))
  {
    BatchesFlatten(PrepareAll(t, p, csvRows));
    RunKeys(c, s, Batches(PrepareAll(t, p, csvRows)));
  }

  lemma {:induction false} RunConsistent(c: Constraints, s: TableState, bs: seq<seq<Record>>)
    requires Consistent(c, s)
    ensures Consistent(c, RunBatches(c, s, bs).step.state)
    decreases |bs|
  {
    if bs != [] {
      var m := InsertMany(c, s, bs[0]);
      InsertEachConsistent(c, s, bs[0]);
      InsertEachConsistent(c, m.state, bs[0]);
      var f := FlushBatch(c, s, bs[0]);
      if f.step.status == Ok {
        RunConsistent(c, f.step.state, bs[1..]);
      }
    }
  }

  /** A load stores every key at most once and keeps the key set equal to the stored keys. */
  lemma LoadConsistent(t: TableSpec, p: Parsers, c: Constraints, s: TableState, csvRows: seq<seq<string>>)
    requires Consistent(c, s)
    ensures Consistent(c, LoadSpec(t, p, c, s, csvRows).step.state)
  {
    RunConsistent(c, s, Batches(PrepareAll(t, p, csvRows)));
  }

  lemma FlushRows(c: Constraints, s: TableState, batch: seq<Record>)
    requires FlushBatch(c, s, batch).step.status == Ok
    ensures s.rows <= FlushBatch(c, s, batch).step.state.rows
    ensures |FlushBatch(c, s, batch).step.state.rows| + (if FlushBatch(c, s, batch).conflicted then |batch| else 0)
            >= |s.rows| + |batch|
  {
    var m := InsertMany(c, s, batch);
    if m.status == Ok {
      InsertManyOk(c, s, batch);
      FillShape(c, s.rows, batch);
    } else {
      var k := InsertManyStops(c, s, batch);
      InsertManyOk(c, s, batch[..k]);
      InsertEachRows(c, m.state, batch);
    }
  }

  lemma {:induction false} RunRows(c: Constraints, s: TableState, bs: seq<seq<Record>>)
    requires RunBatches(c, s, bs).step.status == Ok
    ensures s.rows <= RunBatches(c, s, bs).step.state.rows
    ensures |RunBatches(c, s, bs).step.state.rows| + RunBatches(c, s, bs).duplicates >= |s.rows| + |Flatten(bs)|
    decreases |bs|
  {
    if bs != [] {
      var f := FlushBatch(c, s, bs[0]);
      FlushRows(c, s, bs[0]);
      RunRows(c, f.step.state, bs[1..]);
    }
  }

  /**
   * The duplicate counter over-approximates: rows stored plus duplicates
   * counted is at least the rows the table held plus the rows read, and the
   * stored rows only grow.
   */
  lemma LoadRows(t: TableSpec, p: Parsers, c: Constraints, s: TableState, csvRows: seq<seq<string>>)
    requires LoadSpec(t, p, c, s, csvRows).step.status == Ok
    ensures s.rows <= LoadSpec(t, p, c, s, csvRows).step.state.rows
    ensures |LoadSpec(t, p, c, s, csvRows).step.state.rows| + LoadSpec(t, p, c, s, csvRows).duplicates
            >= |s.rows| + |csvRows|
  {
    var rows := PrepareAll(t, p, csvRows);
    BatchesFlatten(rows);
    RunRows(c, s, Batches(rows));
  }

  lemma CountArithmetic(x: nat, d: nat, r: nat)
    requires x == 0 || x == BatchSize
    requires d <= r && (d % BatchSize == 0 || d % BatchSize == r % BatchSize)
    ensures x + d <= BatchSize + r
    ensures (x + d) % BatchSize == 0 || (x + d) % BatchSize == (BatchSize + r) % BatchSize
  {
  }

  lemma {:induction false} BatchDuplicates(c: Constraints, s: TableState, rows: seq<Record>)
    ensures var d := RunBatches(c, s, Batches(rows)).duplicates;
            d <= |rows| && (d % BatchSize == 0 || d % BatchSize == |rows| % BatchSize)
    decreases |rows|
  {
    if |rows| > BatchSize {
      var b, rest := rows[..BatchSize], rows[BatchSize..];
      assert rows == b + rest;
      BatchesCons(b, rest);
      var bs := Batches(rows);
      assert bs[0] == b && bs[1..] == Batches(rest);
      var f := FlushBatch(c, s, b);
      if f.step.status == Ok {
        BatchDuplicates(c, f.step.state, rest);
        var d' := RunBatches(c, f.step.state, Batches(rest)).duplicates;
        assert RunBatches(c, s, bs).duplicates == (if f.conflicted then BatchSize else 0) + d';
        CountArithmetic(if f.conflicted then BatchSize else 0, d', |rest|);
      }
    } else if rows != [] {
      assert Batches(rows) == [rows];
      assert Batches(rows)[1..] == [];
    }
  }

  /**
   * The duplicate counter, which adds 1000 for each full batch that hit a
   * UNIQUE failure and the size of the final batch if it did, is at most the
   * row count and is a multiple of 1000 or that plus the remainder of the row
   * count, whatever the number of rows that were actually duplicates.
   */
  lemma LoadDuplicates(t: TableSpec, p: Parsers, c: Constraints, s: TableState, csvRows: seq<seq<string>>)
    ensures var d := LoadSpec(t, p, c, s, csvRows).duplicates;
            d <= |csvRows| && (d % BatchSize == 0 || d % BatchSize == |csvRows| % BatchSize)
  {
    BatchDuplicates(c, s, PrepareAll(t, p, csvRows));
  }

  /**
   * The counter over-counts: a batch of two rows of which only the first is a
   * duplicate stores the second and still counts two duplicates, so the rows
   * stored are not the rows read minus the duplicates counted.
   */
  lemma DuplicatesOverCounted()
    ensures var c := Constraints(true, _ => false);
            var s := TableState([[Int(1)]], {Int(1)});
            var r := RunBatches(c, s, [[[Int(1)], [Int(2)]]]);
            r.step.status == Ok && r.step.state.rows == [[Int(1)], [Int(2)]] && r.duplicates == 2
  {
    var c := Constraints(true, _ => false);
    var s := TableState([[Int(1)]], {Int(1)});
    var batch: seq<Record> := [[Int(1)], [Int(2)]];
    assert KeyOf(c, [Int(1)]) == Some(Int(1));
    assert KeyOf(c, [Int(2)]) == Some(Int(2));
    assert InsertMany(c, s, batch) == Step(UniqueViolation, s);
    var second := Insert(c, s, [Int(2)]);
    assert second.state.rows == [[Int(1)], [Int(2)]];
    assert batch[1..] == [[Int(2)]];
    assert InsertEach(c, s, batch) == InsertEach(c, s, [[Int(2)]]);
    assert InsertEach(c, s, batch).status == Ok && InsertEach(c, s, batch).state == second.state;
    assert FlushBatch(c, s, batch) == Flush(second, true);
    assert [batch][1..] == [];
  }

  /**
   * A NULL id takes the next rowid and so can take an id a later row of the
   * same batch gives explicitly: on an empty table the batch
   * `[NULL, 7], [1, 8]` fails in bulk on its second row, the fallback writes
   * the first row again under rowid 2 and skips the second, and both rows
   * are counted as duplicates. The row with id 1 and value 8 is lost.
   */
  lemma GeneratedIdClash()
    ensures var c := Constraints(true, _ => false);
            var r := RunBatches(c, Empty, [[[Null, Int(7)], [Int(1), Int(8)]]]);
            r.step.status == Ok && r.step.state.rows == [[Int(1), Int(7)], [Int(2), Int(7)]] && r.duplicates == 2
  {
    var c := Constraints(true, _ => false);
    var batch: seq<Record> := [[Null, Int(7)], [Int(1), Int(8)]];
    assert Written(c, [], batch[0]) == [Int(1), Int(7)];
    var first := Insert(c, Empty, batch[0]);
    assert first.state == TableState([[Int(1), Int(7)]], {Int(1)});
    assert batch[1..] == [[Int(1), Int(8)]];
    assert InsertMany(c, Empty, batch) == Step(UniqueViolation, first.state);
    var rows := first.state.rows;
    assert MaxRowid(c, rows) == Some(1) by {
      assert rows[..0] == [];
    }
    assert Written(c, rows, batch[0]) == [Int(2), Int(7)];
    var again := Insert(c, first.state, batch[0]);
    assert again.state.rows == [[Int(1), Int(7)], [Int(2), Int(7)]];
    assert Int(1) in again.state.keys;
    assert InsertEach(c, first.state, batch) == InsertEach(c, again.state, [[Int(1), Int(8)]]);
    assert InsertEach(c, first.state, batch).state == again.state;
    assert [batch][1..] == [];
  }

  lemma {:induction false} UnkeyedRunNoDuplicates(c: Constraints, s: TableState, bs: seq<seq<Record>>)
    requires !c.keyed
    ensures RunBatches(c, s, bs).duplicates == 0
    decreases |bs|
  {
    if bs != [] {
      var m := InsertMany(c, s, bs[0]);
      if m.status != Ok {
        var k := InsertManyStops(c, s, bs[0]);
      }
      var f := FlushBatch(c, s, bs[0]);
      if f.step.status == Ok {
        UnkeyedRunNoDuplicates(c, f.step.state, bs[1..]);
      }
    }
  }

  /**
   * On a table without a key (the auto-id tables) a load with no refused row
   * appends every prepared row in file order and counts no duplicates.
   */
  lemma UnkeyedLoad(t: TableSpec, p: Parsers, c: Constraints, s: TableState, csvRows: seq<seq<string>>)
    requires !c.keyed
    requires forall r :: r in PrepareAll(t, p, csvRows) ==> !c.rejects(r)
    ensures LoadSpec(t, p, c, s, csvRows).step.status == Ok
    ensures LoadSpec(t, p, c, s, csvRows).step.state == TableState(s.rows + PrepareAll(t, p, csvRows), s.keys)
    ensures LoadSpec(t, p, c, s, csvRows).duplicates == 0
  {
    var rows := PrepareAll(t, p, csvRows);
    LoadIsInsertEach(t, p, c, s, csvRows);
    InsertEachStatus(c, s, rows);
    InsertEachRows(c, s, rows);
    InsertEachKeys(c, s, rows);
    assert KeysOf(c, rows) == {};
    UnkeyedRunNoDuplicates(c, s, Batches(rows));
  }

  // ---------------------------------------------------------------------------
  // The loader's code

  /** The fallback: insert the rows one at a time, skipping those that fail on UNIQUE. */
  method InsertRowsIndividually(table: Table, rows: seq<Record>) returns (status: Status)
    requires table.Valid()
    modifies table
    ensures table.Valid()
    ensures Step(status, table.State()) == InsertEach(table.constraints, old(table.State()), rows)
  {
    var i := 0;
    while i < |rows|
      invariant 0 <= i <= |rows|
      invariant table.Valid()
      invariant InsertEach(table.constraints, table.State(), rows[i..]) == InsertEach(table.constraints, old(table.State()), rows)
    {
      assert rows[i..][0] == rows[i] && rows[i..][1..] == rows[i + 1..];
      var st := table.Execute(rows[i]);
      if st == OtherViolation {
        return OtherViolation;
      }
      i := i + 1;
    }
    status := Ok;
  }

  /** The outcome `create_database` reports for one table: rows read and duplicates counted, or an error. */
  datatype LoadResult = Loaded(rowCount: nat, duplicateCount: nat) | Failed

  /** The `try: executemany … except IntegrityError` block around one batch. */
  method FlushTable(table: Table, batch: seq<Record>) returns (status: Status, conflicted: bool)
    requires table.Valid()
    modifies table
    ensures table.Valid()
    ensures Flush(Step(status, table.State()), conflicted) == FlushBatch(table.constraints, old(table.State()), batch)
  {
    status := table.ExecuteMany(batch);
    conflicted := status == UniqueViolation;
    if conflicted {
      status := InsertRowsIndividually(table, batch);
    }
  }

  /** The run so far, extended by one more flush. */
  function Extend(c: Constraints, r: Run, batch: seq<Record>): Run
  {
    var f := FlushBatch(c, r.step.state, batch);
    Run(f.step, r.duplicates + (if f.step.status == Ok && f.conflicted then |batch| else 0))
  }

  /**
   * The row loop as a state machine over the prepared rows still to read:
   * each row joins the pending batch, a batch reaching `BatchSize` rows is
   * flushed, the rows left in the batch at the end are flushed last, and
   * the first failure ends the load.
   */
  function Feed(c: Constraints, r: Run, batch: seq<Record>, rows: seq<Record>): Run
    decreases |rows|
  {
    if r.step.status != Ok then r
    else if rows == [] then (if batch == [] then r else Extend(c, r, batch))
    else if |batch| + 1 >= BatchSize then Feed(c, Extend(c, r, batch + [rows[0]]), [], rows[1..])
    else Feed(c, r, batch + [rows[0]], rows[1..])
  }

  /** Reading the rows one at a time flushes exactly the batches `Batches` cuts. */
  lemma {:induction false} FeedIsRunBatches(c: Constraints, r: Run, batch: seq<Record>, rows: seq<Record>)
    requires r.step.status == Ok && |batch| < BatchSize
    ensures var x := RunBatches(c, r.step.state, Batches(batch + rows));
            Feed(c, r, batch, rows) == Run(x.step, r.duplicates + x.duplicates)
    decreases |rows|
  {
    var s := r.step.state;
    if rows == [] {
      assert batch + rows == batch;
      if batch != [] {
        assert Batches(batch) == [batch];
        assert Batches(batch)[1..] == [];
      }
    } else {
      var b := batch + [rows[0]];
      assert batch + rows == b + rows[1..];
      if |batch| + 1 >= BatchSize {
        BatchesCons(b, rows[1..]);
        var bs := Batches(b + rows[1..]);
        assert bs[0] == b && bs[1..] == Batches(rows[1..]);
        var e := Extend(c, r, b);
        if e.step.status == Ok {
          FeedIsRunBatches(c, e, [], rows[1..]);
          assert [] + rows[1..] == rows[1..];
        }
      } else {
        FeedIsRunBatches(c, r, b, rows[1..]);
      }
    }
  }

  /** The row-by-row loop computes the load. */
  lemma FeedIsLoad(t: TableSpec, p: Parsers, c: Constraints, s: TableState, csvRows: seq<seq<string>>)
    ensures Feed(c, Run(Step(Ok, s), 0), [], PrepareAll(t, p, csvRows)) == LoadSpec(t, p, c, s, csvRows)
  {
    var rows := PrepareAll(t, p, csvRows);
    FeedIsRunBatches(c, Run(Step(Ok, s), 0), [], rows);
    assert [] + rows == rows;
  }

  /**
   * The `try: executemany … except IntegrityError` block around one batch,
   * with the duplicate counter raised by `increment` when the batch conflicts.
   */
  method FlushCounted(table: Table, batch: seq<Record>, increment: nat, duplicateCount: nat)
    returns (status: Status, newCount: nat)
    requires table.Valid() && increment == |batch|
    modifies table
    ensures table.Valid()
    ensures Run(Step(status, table.State()), newCount)
            == Extend(table.constraints, Run(Step(Ok, old(table.State())), duplicateCount), batch)
  {
    var conflicted;
    status, conflicted := FlushTable(table, batch);
    newCount := if status == Ok && conflicted then duplicateCount + increment else duplicateCount;
  }

  /** `create_database`'s load of one table: the row loop, then the flush of the remaining rows. */
  method LoadTable(table: Table, t: TableSpec, p: Parsers, csvRows: seq<seq<string>>) returns (result: LoadResult)
    requires table.Valid()
    modifies table
    ensures table.Valid()
    ensures var run := LoadSpec(t, p, table.constraints, old(table.State()), csvRows);
            table.State() == run.step.state
            && result == if run.step.status == Ok then Loaded(|csvRows|, run.duplicates) else Failed
  {
    ghost var rows := PrepareAll(t, p, csvRows);
    ghost var c := table.constraints;
    FeedIsLoad(t, p, c, table.State(), csvRows);
    ghost var goal := Feed(c, Run(Step(Ok, table.State()), 0), [], rows);
    var batch: seq<Record> := [];
    var rowCount: nat := 0;
    var duplicateCount: nat := 0;
    var i := 0;
    while i < |csvRows|
      invariant i <= |csvRows| == |rows| && rowCount == i && |batch| < BatchSize
      invariant table.Valid()
      invariant Feed(c, Run(Step(Ok, table.State()), duplicateCount), batch, rows[i..]) == goal
    {
      assert rows[i..][0] == rows[i] && rows[i..][1..] == rows[i + 1..];
      rowCount := rowCount + 1;
      var row := Prepare(t, p, csvRows[i]);
      batch := batch + [row];
      i := i + 1;
      if |batch| >= BatchSize {
        var status;
        status, duplicateCount := FlushCounted(table, batch, BatchSize, duplicateCount);
        if status != Ok {
          return Failed;
        }
        batch := [];
      }
    }
    if |batch| > 0 {
      var status;
      status, duplicateCount := FlushCounted(table, batch, |batch|, duplicateCount);
      if status != Ok {
        return Failed;
      }
    }
    result := Loaded(rowCount, duplicateCount);
  }

  // ---------------------------------------------------------------------------
  // The whole database

  /**
   * The constraints SQLite enforces on a registry table: the id is the key of
   * a table without a generated id; `rejects` stands for every other integrity
   * error, table by table.
   */
  function TableConstraints(t: TableSpec, rejects: (string, Record) -> bool): (c: Constraints)
    ensures c.keyed <==> !t.hasAutoId
  {
    Constraints(!t.hasAutoId, r => rejects(t.name, r))
  }

  /** What loading a table's file into the new, empty table gives; a table whose file is absent stays empty. */
  function TableLoad(t: TableSpec, p: Parsers, rejects: (string, Record) -> bool, ds: Dataset): Run
  {
    if t.sourceFile in ds then LoadSpec(t, p, TableConstraints(t, rejects), Empty, ds[t.sourceFile])
    else Run(Step(Ok, Empty), 0)
  }

  /**
   * A registry table whose id the database generates (ratings, tags) receives
   * every row of its file, prepared and in file order, with no duplicate
   * counted, as long as no row is refused otherwise.
   */
  lemma AutoIdTableLoad(t: TableSpec, p: Parsers, rejects: (string, Record) -> bool, ds: Dataset)
    requires t.hasAutoId && t.sourceFile in ds
    requires forall r :: r in PrepareAll(t, p, ds[t.sourceFile]) ==> !rejects(t.name, r)
    ensures TableLoad(t, p, rejects, ds) == Run(Step(Ok, TableState(PrepareAll(t, p, ds[t.sourceFile]), {})), 0)
  {
    UnkeyedLoad(t, p, TableConstraints(t, rejects), Empty, ds[t.sourceFile]);
  }

  /** Every table a load gives holds each id at most once, and its key set is that of its rows. */
  lemma TableLoadConsistent(t: TableSpec, p: Parsers, rejects: (string, Record) -> bool, ds: Dataset)
    ensures Consistent(TableConstraints(t, rejects), TableLoad(t, p, rejects, ds).step.state)
  {
    assert Consistent(TableConstraints(t, rejects), Empty);
    if t.sourceFile in ds {
      LoadConsistent(t, p, TableConstraints(t, rejects), Empty, ds[t.sourceFile]);
    }
  }

  /** The `CREATE TABLE` loop: one new, empty table per registry entry. */
  method NewTables(specs: seq<TableSpec>, rejects: (string, Record) -> bool) returns (tables: seq<Table>)
    ensures |tables| == |specs|
    ensures forall j :: 0 <= j < |specs| ==> fresh(tables[j])
    ensures forall j, k :: 0 <= j < k < |specs| ==> tables[j] != tables[k]
    ensures forall j :: 0 <= j < |specs| ==>
              tables[j].Valid() && tables[j].constraints == TableConstraints(specs[j], rejects)
              && tables[j].State() == Empty
  {
    tables := [];
    var i := 0;
    while i < |specs|
      invariant i <= |specs| && |tables| == i
      invariant forall j :: 0 <= j < i ==> fresh(tables[j])
      invariant forall j, k :: 0 <= j < k < i ==> tables[j] != tables[k]
      invariant forall j :: 0 <= j < i ==>
                  tables[j].Valid() && tables[j].constraints == TableConstraints(specs[j], rejects)
                  && tables[j].State() == Empty
    {
      var table := new Table(TableConstraints(specs[i], rejects));
      tables := tables + [table];
      i := i + 1;
    }
  }

  /** Whether table `j` is a consistent table with the constraints of its registry entry. */
  ghost predicate Ready(specs: seq<TableSpec>, rejects: (string, Record) -> bool, tables: seq<Table>, j: int)
    requires 0 <= j < |specs| == |tables|
    reads tables[j]
  {
    tables[j].Valid() && tables[j].constraints == TableConstraints(specs[j], rejects)
  }

  /** Whether table `j` holds what its load gives. */
  ghost predicate HoldsLoad(specs: seq<TableSpec>, ds: Dataset, p: Parsers, rejects: (string, Record) -> bool,
                            tables: seq<Table>, j: int)
    requires 0 <= j < |specs| == |tables|
    reads tables[j]
  {
    TableLoad(specs[j], p, rejects, ds).step.status == Ok
    && tables[j].State() == TableLoad(specs[j], p, rejects, ds).step.state
  }

  /** Table `j` after the loading loop has loaded the tables before table `i`. */
  ghost predicate Stage(specs: seq<TableSpec>, ds: Dataset, p: Parsers, rejects: (string, Record) -> bool,
                        tables: seq<Table>, i: int, j: int)
    requires 0 <= j < |specs| == |tables|
    reads tables[j]
  {
    Ready(specs, rejects, tables, j)
    && (j < i ==> HoldsLoad(specs, ds, p, rejects, tables, j))
    && (i <= j ==> tables[j].State() == Empty)
  }

  /** Load one new table from its file, if the file exists. */
  method LoadNew(table: Table, t: TableSpec, ds: Dataset, p: Parsers, rejects: (string, Record) -> bool)
    returns (loaded: bool)
    requires table.Valid() && table.constraints == TableConstraints(t, rejects) && table.State() == Empty
    modifies table
    ensures table.Valid()
    ensures loaded <==> TableLoad(t, p, rejects, ds).step.status == Ok
    ensures loaded ==> table.State() == TableLoad(t, p, rejects, ds).step.state
  {
    loaded := true;
    if t.sourceFile in ds {
      var result := LoadTable(table, t, p, ds[t.sourceFile]);
      loaded := result.Loaded?;
    }
  }

  /**
   * The loading loop: load the tables whose files exist, in order, stopping at
   * the first failure.
   */
  method LoadTables(specs: seq<TableSpec>, ds: Dataset, p: Parsers, rejects: (string, Record) -> bool,
                    tables: seq<Table>) returns (ok: bool)
    requires |tables| == |specs|
    requires forall j, k :: 0 <= j < k < |specs| ==> tables[j] != tables[k]
    requires forall j :: 0 <= j < |specs| ==> Stage(specs, ds, p, rejects, tables, 0, j)
    modifies set j | 0 <= j < |tables| :: tables[j]
    ensures ok <==> forall j :: 0 <= j < |specs| ==> TableLoad(specs[j], p, rejects, ds).step.status == Ok
    ensures ok ==> forall j :: 0 <= j < |specs| ==> HoldsLoad(specs, ds, p, rejects, tables, j)
  {
    var i := 0;
    while i < |specs|
      invariant i <= |specs|
      invariant forall j :: 0 <= j < |specs| ==> Stage(specs, ds, p, rejects, tables, i, j)
    {
      assert Stage(specs, ds, p, rejects, tables, i, i);
      var loaded := LoadNew(tables[i], specs[i], ds, p, rejects);
      if !loaded {
        return false;
      }
      ghost var next := i + 1;
      assert Stage(specs, ds, p, rejects, tables, next, i);
      forall j | 0 <= j < |specs| && j != i
        ensures Stage(specs, ds, p, rejects, tables, next, j)
      {
        assert tables[j] != tables[i];
        assert Stage(specs, ds, p, rejects, tables, i, j);
      }
      i := i + 1;
    }
    forall j | 0 <= j < |specs|
      ensures HoldsLoad(specs, ds, p, rejects, tables, j)
      ensures TableLoad(specs[j], p, rejects, ds).step.status == Ok
    {
      assert Stage(specs, ds, p, rejects, tables, i, j);
    }
    ok := true;
  }

  /**
   * `create_database` over the given tables: create every table, then load
   * them. The result says whether every load succeeded; on success each table
   * holds exactly what its own load gives.
   */
  method CreateTables(specs: seq<TableSpec>, ds: Dataset, p: Parsers, rejects: (string, Record) -> bool)
    returns (ok: bool, tables: seq<Table>)
    ensures |tables| == |specs|
    ensures ok <==> forall j :: 0 <= j < |specs| ==> TableLoad(specs[j], p, rejects, ds).step.status == Ok
    ensures ok ==> forall j :: 0 <= j < |specs| ==> tables[j].State() == TableLoad(specs[j], p, rejects, ds).step.state
  {
    tables := NewTables(specs, rejects);
    assert forall j :: 0 <= j < |specs| ==> Stage(specs, ds, p, rejects, tables, 0, j);
    ok := LoadTables(specs, ds, p, rejects, tables);
    forall j | ok && 0 <= j < |specs|
      ensures tables[j].State() == TableLoad(specs[j], p, rejects, ds).step.state
    {
      assert HoldsLoad(specs, ds, p, rejects, tables, j);
    }
  }

  /** `create_database` itself, over the registry. */
  method CreateDatabase(ds: Dataset, p: Parsers, rejects: (string, Record) -> bool)
    returns (ok: bool, tables: seq<Table>)
    ensures |tables| == |Tables|
    ensures ok <==> forall j :: 0 <= j < |Tables| ==> TableLoad(Tables[j], p, rejects, ds).step.status == Ok
    ensures ok ==> forall j :: 0 <= j < |Tables| ==> tables[j].State() == TableLoad(Tables[j], p, rejects, ds).step.state
  {
    ok, tables := CreateTables(Tables, ds, p, rejects);
  }
}
