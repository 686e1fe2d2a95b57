/**
 * Row preparation in the loader: drop the positional id of auto-id tables,
 * repair the width to the insert column count, and coerce each field by the
 * declared type of the column it is aligned with.
 */
module RowPrep {

  import opened Wrappers
  import opened Registry
  import Text

  /** A coerced value: Python's `None`, `int`, `float` or `str`. */
  datatype Value = Null | Int(i: int) | Float(x: real) | Str(s: string)

  type Record = seq<Value>

  /** A field after width repair: the CSV text, or `None` for padding. */
  type Field = Option<string>

  /**
   * Python's `int(text)` and `float(text)`, as partial functions: `None` stands
   * for the `ValueError` the loader catches.
   */
  datatype Parsers = Parsers(parseInt: string -> Option<int>, parseFloat: string -> Option<real>)

  /** The row without its leading field when `t` has a generated id and the row is non-empty. */
  function DropAutoId(t: TableSpec, row: seq<string>): (r: seq<string>)
    ensures t.hasAutoId && |row| > 0 ==> [row[0]] + r == row
    ensures !t.hasAutoId || |row| == 0 ==> r == row
  {
    if t.hasAutoId && |row| > 0 then row[1..] else row
  }

  /** Pad with `None` or truncate so that the row has exactly `n` fields. */
  function Repair(row: seq<string>, n: nat): (r: seq<Field>)
    ensures |r| == n
    ensures forall i :: 0 <= i < n && i < |row| ==> r[i] == Some(row[i])
    ensures forall i :: |row| <= i < n ==> r[i] == None
  {
    var kept := if |row| <= n then row else row[..n];
    seq(|kept|, i requires 0 <= i < |kept| => Some(kept[i])) + seq(n - |kept|, _ => None)
  }

  /** The coercion of one field by the declared type of its column. */
  function CoerceField(sqlType: string, f: Field, p: Parsers): (v: Value)
    ensures v == Null <==> f == None || f == Some("")
    ensures v.Str? ==> f == Some(v.s) && v.s != ""
    ensures v.Int? ==> Text.Contains(sqlType, "INTEGER") && f.Some? && p.parseInt(f.value) == Some(v.i)
    ensures v.Float? ==> !Text.Contains(sqlType, "INTEGER") && Text.Contains(sqlType, "REAL")
                         && f.Some? && p.parseFloat(f.value) == Some(v.x)
    ensures f.Some? && f.value != "" && Text.Contains(sqlType, "INTEGER")
            ==> v == if p.parseInt(f.value).Some? then Int(p.parseInt(f.value).value) else Str(f.value)
    ensures f.Some? && f.value != "" && !Text.Contains(sqlType, "INTEGER") && Text.Contains(sqlType, "REAL")
            ==> v == if p.parseFloat(f.value).Some? then Float(p.parseFloat(f.value).value) else Str(f.value)
    ensures f.Some? && f.value != "" && !Text.Contains(sqlType, "INTEGER") && !Text.Contains(sqlType, "REAL")
            ==> v == Str(f.value)
  {
    match f
    case None => Null
    case Some(s) =>
      if s == "" then Null
      else if Text.Contains(sqlType, "INTEGER") then
        (match p.parseInt(s) case Some(n) => Int(n) case None => Str(s))
      else if Text.Contains(sqlType, "REAL") then
        (match p.parseFloat(s) case Some(x) => Float(x) case None => Str(s))
      else Str(s)
  }

  /** Coerce a repaired row; field `i` takes the type of column `i + CsvOffset(t)`. */
  function Coerce(t: TableSpec, p: Parsers, row: seq<Field>): (r: Record)
    requires |row| == ExpectedColumns(t)
    ensures |r| == |row|
    ensures forall i :: 0 <= i < |r| ==>
              i + CsvOffset(t) < |t.columns| && r[i] == CoerceField(t.columns[i + CsvOffset(t)].sqlType, row[i], p)
  {
    seq(|row|, i requires 0 <= i < |row| => CoerceField(t.columns[i + CsvOffset(t)].sqlType, row[i], p))
  }

  /** The record the loader builds from one CSV data row. */
  function Prepare(t: TableSpec, p: Parsers, row: seq<string>): (r: Record)
    ensures |r| == ExpectedColumns(t)
    ensures forall i :: 0 <= i < |r| ==>
              (r[i] == Null <==> i >= |DropAutoId(t, row)| || DropAutoId(t, row)[i] == "")
    ensures forall i :: 0 <= i < |r| && r[i].Str? ==>
              i < |DropAutoId(t, row)| && r[i].s == DropAutoId(t, row)[i]
    ensures forall i :: 0 <= i < |r| ==> r[i] != Str("")
  {
    Coerce(t, p, Repair(DropAutoId(t, row), ExpectedColumns(t)))
  }

  /** Every data row of a file, prepared in file order. */
  function PrepareAll(t: TableSpec, p: Parsers, rows: seq<seq<string>>): (rs: seq<Record>)
    ensures |rs| == |rows|
    ensures forall k :: 0 <= k < |rows| ==> rs[k] == Prepare(t, p, rows[k])
  {
    seq(|rows|, k requires 0 <= k < |rows| => Prepare(t, p, rows[k]))
  }

  /** On an auto-id table the CSV id never reaches the record: only the fields after it matter. */
  lemma AutoIdIgnored(t: TableSpec, p: Parsers, id1: string, id2: string, rest: seq<string>)
    requires t.hasAutoId
    ensures Prepare(t, p, [id1] + rest) == Prepare(t, p, [id2] + rest)
  {
    assert DropAutoId(t, [id1] + rest) == rest == DropAutoId(t, [id2] + rest);
  }

  /** The declared types of the registry select the coercions the loader applies. */
  lemma RegistryCoercions(p: Parsers, f: Field)
    ensures CoerceField("INTEGER PRIMARY KEY", f, p) == CoerceField("INTEGER", f, p)
    ensures CoerceField("INTEGER PRIMARY KEY AUTOINCREMENT", f, p) == CoerceField("INTEGER", f, p)
    ensures f.Some? && f.value != "" ==>
              CoerceField("INTEGER", f, p) == (match p.parseInt(f.value) case Some(n) => Int(n) case None => Str(f.value))
              && CoerceField("TEXT", f, p) == Str(f.value)
              && CoerceField("REAL", f, p) == (match p.parseFloat(f.value) case Some(x) => Float(x) case None => Str(f.value))
  {
    assert "INTEGER" <= "INTEGER";
    assert "INTEGER" <= "INTEGER PRIMARY KEY";
    assert "INTEGER" <= "INTEGER PRIMARY KEY AUTOINCREMENT";
    assert !Text.Contains("TEXT", "REAL") by {
      assert "TEXT"[0] != "REAL"[0];
      assert "TEXT"[1..] == "EXT";
    }
    assert !Text.Contains("TEXT", "INTEGER");
    assert !Text.Contains("REAL", "INTEGER");
    assert Text.Contains("REAL", "REAL");
  }

  /** A well-formed movies row keeps its id, coerces its year and keeps its text fields. */
  lemma MoviesRow(p: Parsers)
    requires p.parseInt("1") == Some(1) && p.parseInt("1995") == Some(1995)
    ensures Prepare(Movies, p, ["1", "Toy Story", "1995", "Animation|Children"])
            == [Int(1), Str("Toy Story"), Int(1995), Str("Animation|Children")]
  {
    var row := ["1", "Toy Story", "1995", "Animation|Children"];
    assert ExpectedColumns(Movies) == 4 && DropAutoId(Movies, row) == row;
    var fields := Repair(row, 4);
    RegistryCoercions(p, Some(row[0]));
    RegistryCoercions(p, Some(row[1]));
    RegistryCoercions(p, Some(row[2]));
    RegistryCoercions(p, Some(row[3]));
    var r := Coerce(Movies, p, fields);
    assert r[0] == Int(1) && r[1] == Str("Toy Story") && r[2] == Int(1995) && r[3] == Str("Animation|Children");
  }
}
