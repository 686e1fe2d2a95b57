/**
 * The SQL script emitter: DROP and CREATE statements for every registry
 * table, then one INSERT per CSV data row of every table whose file exists.
 * Every field is written as a quoted SQL string literal, or `NULL` when empty.
 */
module SqlScript {

  import opened Wrappers
  import opened Registry
  import RowPrep
  import Text

  // ---------------------------------------------------------------------------
  // Value escaping and its inverse

  /** Python's `str.replace("'", "''")`. */
  function DoubleQuotes(s: string): string
  {
    if s == [] then [] else (if s[0] == '\'' then "''" else [s[0]]) + DoubleQuotes(s[1..])
  }

  /** Text without quotes is written as it is; every quote adds one character. */
  lemma {:induction false} DoubleQuotesPlain(s: string)
    ensures |DoubleQuotes(s)| >= |s|
    ensures '\'' !in s ==> DoubleQuotes(s) == s
    decreases |s|
  {
    if s != [] {
      DoubleQuotesPlain(s[1..]);
      assert '\'' !in s ==> '\'' !in s[1..] && s[0] != '\'';
      assert [s[0]] + s[1..] == s;
    }
  }

  /** The SQL text of one CSV field: `NULL` for an empty field, else a quoted literal. */
  function EscapeValue(v: string): (e: string)
    ensures e == "NULL" <==> v == ""
    ensures v != "" ==> |e| >= 2 && e[0] == '\'' && e[|e| - 1] == '\''
  {
    if v == "" then "NULL"
    else
      var e := "'" + DoubleQuotes(v) + "'";
      assert e[0] != "NULL"[0];
      e
  }

  /**
   * Reads the body of a quoted literal whose opening quote is already consumed:
   * `''` stands for one quote, a lone quote closes the literal. Returns the
   * text and what follows the closing quote.
   */
  function ParseQuoted(s: string): (r: Option<(string, string)>)
    ensures r.Some? ==> |r.value.1| < |s|
    decreases |s|
  {
    if s == [] then None
    else if s[0] == '\'' then
      if |s| > 1 && s[1] == '\'' then
        match ParseQuoted(s[2..])
        case None => None
        case Some((body, rest)) => Some(("'" + body, rest))
      else Some(("", s[1..]))
    else
      match ParseQuoted(s[1..])
      case None => None
      case Some((body, rest)) => Some(([s[0]] + body, rest))
  }

  /** Reads one value of a VALUES list: `NULL` gives the empty field. */
  function ParseValue(s: string): (r: Option<(string, string)>)
    ensures r.Some? ==> |r.value.1| < |s|
  {
    if "NULL" <= s then Some(("", s[4..]))
    else if |s| > 0 && s[0] == '\'' then ParseQuoted(s[1..])
    else None
  }

  /** Reads a `, `-separated VALUES list back into the fields it was written from. */
  function ParseValues(s: string): Option<seq<string>>
    decreases |s|
  {
    if s == [] then Some([])
    else
      match ParseValue(s)
      case None => None
      case Some((v, rest)) =>
        if rest == [] then Some([v])
        else if ", " <= rest then
          match ParseValues(rest[2..])
          case None => None
          case Some(vs) => Some([v] + vs)
        else None
  }

  /** The text between the parentheses after VALUES. */
  function RenderValues(row: seq<string>): string
  {
    Text.Join(", ", seq(|row|, i requires 0 <= i < |row| => EscapeValue(row[i])))
  }

  /** Reading back a doubled body stops exactly at its closing quote. */
  lemma {:induction false} ParseQuotedDoubled(v: string, rest: string)
    requires rest == [] || rest[0] != '\''
    ensures ParseQuoted(DoubleQuotes(v) + "'" + rest) == Some((v, rest))
    decreases |v|
  {
    var s := DoubleQuotes(v) + "'" + rest;
    if v == [] {
      assert s == "'" + rest;
    } else if v[0] == '\'' {
      ParseQuotedDoubled(v[1..], rest);
      assert s == "''" + (DoubleQuotes(v[1..]) + "'" + rest);
      assert s[2..] == DoubleQuotes(v[1..]) + "'" + rest;
      assert "'" + v[1..] == v;
    } else {
      ParseQuotedDoubled(v[1..], rest);
      assert s == [v[0]] + (DoubleQuotes(v[1..]) + "'" + rest);
      assert s[1..] == DoubleQuotes(v[1..]) + "'" + rest;
      assert [v[0]] + v[1..] == v;
    }
  }

  /** An escaped field reads back as the original field, whatever follows it in the list. */
  lemma EscapeRoundTrip(v: string, rest: string)
    requires rest == [] || rest[0] != '\''
    ensures ParseValue(EscapeValue(v) + rest) == Some((v, rest))
  {
    if v == "" {
      var s := "NULL" + rest;
      assert EscapeValue(v) + rest == s;
      assert "NULL" <= s && s[4..] == rest;
    } else {
      var s := "'" + (DoubleQuotes(v) + "'" + rest);
      assert EscapeValue(v) + rest == s;
      ParseQuotedDoubled(v, rest);
      assert s[0] != "NULL"[0];
      assert !("NULL" <= s);
      assert s[1..] == DoubleQuotes(v) + "'" + rest;
    }
  }

  /** A VALUES list of several fields is the first escaped field, `, ` and the rest. */
  lemma RenderValuesCons(row: seq<string>)
    requires |row| > 1
    ensures RenderValues(row) == EscapeValue(row[0]) + (", " + RenderValues(row[1..]))
  {
    var es := seq(|row|, i requires 0 <= i < |row| => EscapeValue(row[i]));
    var es' := seq(|row[1..]|, i requires 0 <= i < |row[1..]| => EscapeValue(row[1..][i]));
    assert es[1..] == es';
    var tail := Text.Join(", ", es');
    assert Text.Join(", ", es) == es[0] + ", " + tail;
    assert es[0] + ", " + tail == es[0] + (", " + tail);
  }

  lemma ParseValuesCons(e: string, v: string, tail: string, vs: seq<string>)
    requires ParseValue(e + (", " + tail)) == Some((v, ", " + tail))
    requires ParseValues(tail) == Some(vs)
    ensures ParseValues(e + (", " + tail)) == Some([v] + vs)
  {
    assert (", " + tail)[2..] == tail;
    assert ", " <= ", " + tail;
  }

  /** The VALUES list of a row reads back as exactly that row: same fields, same count, same order. */
  lemma {:induction false} ValuesRoundTrip(row: seq<string>)
    ensures ParseValues(RenderValues(row)) == Some(row)
    decreases |row|
  {
    if |row| == 1 {
      EscapeRoundTrip(row[0], "");
      assert RenderValues(row) == EscapeValue(row[0]) + "";
      assert [row[0]] == row;
    } else if |row| > 1 {
      var tail := RenderValues(row[1..]);
      RenderValuesCons(row);
      EscapeRoundTrip(row[0], ", " + tail);
      ValuesRoundTrip(row[1..]);
      ParseValuesCons(EscapeValue(row[0]), row[0], tail, row[1..]);
      assert [row[0]] + row[1..] == row;
    }
  }

  // ---------------------------------------------------------------------------
  // Statements

  /** The column definitions of a CREATE TABLE, `name type` joined by `, `. */
  function ColumnsDef(t: TableSpec): string
  {
    Text.Join(", ", seq(|t.columns|, i requires 0 <= i < |t.columns| => t.columns[i].name + " " + t.columns[i].sqlType))
  }

  function DropLine(t: TableSpec): (l: string)
    ensures DropPrefix <= l && l[|l| - 1] == ';'
  {
    "DROP TABLE IF EXISTS " + t.name + ";"
  }

  function CreateLine(t: TableSpec): (l: string)
    ensures CreatePrefix <= l && l[|l| - 1] == ';'
  {
    "CREATE TABLE " + t.name + " (" + ColumnsDef(t) + ");"
  }

  /** Everything of an INSERT up to its values: fixed per table. */
  function InsertHead(t: TableSpec): (h: string)
    ensures InsertPrefix <= h
  {
    "INSERT INTO " + t.name + " (" + Text.Join(", ", InsertColumns(t)) + ") VALUES ("
  }

  /** The INSERT for one CSV data row; the script path neither pads nor truncates. */
  function InsertLine(t: TableSpec, row: seq<string>): (l: string)
    ensures InsertHead(t) <= l && |l| >= |InsertHead(t)| + 2 && l[|l| - 2..] == ");"
  {
    InsertHead(t) + RenderValues(RowPrep.DropAutoId(t, row)) + ");"
  }

  /** Reads the field values back out of an INSERT line for table `t`. */
  function ParseInsert(t: TableSpec, line: string): Option<seq<string>>
  {
    var h := InsertHead(t);
    if h <= line && |line| >= |h| + 2 && line[|line| - 2..] == ");" then ParseValues(line[|h|..|line| - 2])
    else None
  }

  /**
   * An INSERT carries the row's fields, minus the CSV id on auto-id tables,
   * one value per field: as many values as the id-dropped row has fields,
   * whatever the width of the column list.
   */
  lemma InsertRoundTrip(t: TableSpec, row: seq<string>)
    ensures ParseInsert(t, InsertLine(t, row)) == Some(RowPrep.DropAutoId(t, row))
    ensures |RowPrep.DropAutoId(t, row)| == if t.hasAutoId && |row| > 0 then |row| - 1 else |row|
  {
    var h := InsertHead(t);
    var vals := RenderValues(RowPrep.DropAutoId(t, row));
    var line := InsertLine(t, row);
    assert line == h + vals + ");";
    assert h <= line;
    assert line[|line| - 2..] == ");";
    assert line[|h|..|line| - 2] == vals;
    ValuesRoundTrip(RowPrep.DropAutoId(t, row));
  }

  // ---------------------------------------------------------------------------
  // The script

  const DropHeading := "-- Удаление существующих таблиц"
  const CreateHeading := "-- Создание таблиц"
  const InsertHeading := "-- Вставка данных"

  function DataHeading(name: string): string
  {
    "-- Данные для таблицы " + name
  }

  function DropLines(ts: seq<TableSpec>): seq<string>
  {
    seq(|ts|, i requires 0 <= i < |ts| => DropLine(ts[i]))
  }

  function CreateLines(ts: seq<TableSpec>): seq<string>
  {
    seq(|ts|, i requires 0 <= i < |ts| => CreateLine(ts[i]))
  }

  function InsertLines(t: TableSpec, rows: seq<seq<string>>): seq<string>
  {
    seq(|rows|, k requires 0 <= k < |rows| => InsertLine(t, rows[k]))
  }

  /** A table's INSERT section; a table whose file is missing gets none. */
  function DataSection(t: TableSpec, ds: Dataset): seq<string>
  {
    if t.sourceFile in ds then [DataHeading(t.name)] + InsertLines(t, ds[t.sourceFile]) + [""] else []
  }

  function DataSections(ts: seq<TableSpec>, ds: Dataset): seq<string>
  {
    if ts == [] then [] else DataSection(ts[0], ds) + DataSections(ts[1..], ds)
  }

  /** The part of the script that does not depend on the data: the DROP and CREATE sections. */
  function Preamble(): seq<string>
  {
    [DropHeading] + DropLines(Tables) + ["", CreateHeading] + CreateLines(Tables) + ["", InsertHeading]
  }

  /** The lines of the script, each written with a trailing newline. */
  function Script(ds: Dataset): seq<string>
  {
    Preamble() + DataSections(Tables, ds)
  }

  /** The content of the script file: every line, each ended by a newline. */
  function ScriptText(ds: Dataset): (text: string)
    ensures |text| > 0 && text[|text| - 1] == '\n'
  {
    Text.Join("\n", Script(ds)) + "\n"
  }

  // ---------------------------------------------------------------------------
  // Properties of the script

  const DropPrefix := "DROP TABLE IF EXISTS "
  const CreatePrefix := "CREATE TABLE "
  const InsertPrefix := "INSERT INTO "

  /** The lines that start with `prefix`, in script order. */
  function Selected(lines: seq<string>, prefix: string): seq<string>
  {
    if lines == [] then []
    else (if prefix <= lines[0] then [lines[0]] else []) + Selected(lines[1..], prefix)
  }

  /** The INSERTs of the tables whose files exist, table by table. */
  function InsertsOf(ts: seq<TableSpec>, ds: Dataset): seq<string>
  {
    if ts == [] then []
    else (if ts[0].sourceFile in ds then InsertLines(ts[0], ds[ts[0].sourceFile]) else []) + InsertsOf(ts[1..], ds)
  }

  /** The number of data rows over the tables whose files exist. */
  function RowsOf(ts: seq<TableSpec>, ds: Dataset): nat
  {
    if ts == [] then 0
    else (if ts[0].sourceFile in ds then |ds[ts[0].sourceFile]| else 0) + RowsOf(ts[1..], ds)
  }

  lemma {:induction false} SelectedAppend(a: seq<string>, b: seq<string>, prefix: string)
    ensures Selected(a + b, prefix) == Selected(a, prefix) + Selected(b, prefix)
    decreases |a|
  {
    if a == [] {
      assert a + b == b;
    } else {
      var head := if prefix <= a[0] then [a[0]] else [];
      var ab := a + b;
      assert ab[0] == a[0] && ab[1..] == a[1..] + b;
      assert Selected(ab, prefix) == head + Selected(a[1..] + b, prefix);
      SelectedAppend(a[1..], b, prefix);
      var sa, sb := Selected(a[1..], prefix), Selected(b, prefix);
      assert head + (sa + sb) == (head + sa) + sb;
    }
  }

  /** No line whose first character differs from the prefix's is selected. */
  lemma {:induction false} SelectedNone(a: seq<string>, prefix: string)
    requires |prefix| > 0
    requires forall i :: 0 <= i < |a| ==> |a[i]| == 0 || a[i][0] != prefix[0]
    ensures Selected(a, prefix) == []
    decreases |a|
  {
    if a != [] {
      SelectedNone(a[1..], prefix);
    }
  }

  lemma {:induction false} SelectedAll(a: seq<string>, prefix: string)
    requires forall i :: 0 <= i < |a| ==> prefix <= a[i]
    ensures Selected(a, prefix) == a
    decreases |a|
  {
    if a != [] {
      SelectedAll(a[1..], prefix);
    }
  }

  /** Lines of the INSERT sections are headings, blank, or INSERTs. */
  lemma {:induction false} DataSectionsShape(ts: seq<TableSpec>, ds: Dataset)
    ensures forall i :: 0 <= i < |DataSections(ts, ds)| ==>
              var l := DataSections(ts, ds)[i]; |l| == 0 || l[0] == '-' || InsertPrefix <= l
    decreases |ts|
  {
    if ts != [] {
      DataSectionsShape(ts[1..], ds);
      var sec := DataSection(ts[0], ds);
      assert forall i :: 0 <= i < |sec| ==> |sec[i]| == 0 || sec[i][0] == '-' || InsertPrefix <= sec[i];
    }
  }

  lemma InsertLinesStart(t: TableSpec, rows: seq<seq<string>>)
    ensures forall k :: 0 <= k < |InsertLines(t, rows)| ==> InsertPrefix <= InsertLines(t, rows)[k]
  {
  }

  lemma HeadedSelected(h: string, ins: seq<string>, prefix: string)
    requires |h| > 0 && |prefix| > 0 && h[0] != prefix[0]
    requires forall k :: 0 <= k < |ins| ==> prefix <= ins[k]
    ensures Selected([h] + ins + [""], prefix) == ins
  {
    var x := [h] + ins;
    SelectedAppend(x, [""], prefix);
    assert Selected([""], prefix) == [];
    SelectedAppend([h], ins, prefix);
    assert Selected([h], prefix) == [];
    SelectedAll(ins, prefix);
    assert Selected(x, prefix) == ins;
    assert ins + [] == ins;
  }

  /** A table's section contributes its INSERTs and nothing else. */
  lemma SectionInserts(t: TableSpec, ds: Dataset)
    ensures Selected(DataSection(t, ds), InsertPrefix)
            == if t.sourceFile in ds then InsertLines(t, ds[t.sourceFile]) else []
  {
    if t.sourceFile in ds {
      InsertLinesStart(t, ds[t.sourceFile]);
      HeadedSelected(DataHeading(t.name), InsertLines(t, ds[t.sourceFile]), InsertPrefix);
    }
  }

  /** The INSERT lines of the sections are exactly the INSERTs of the present files. */
  lemma {:induction false} DataSectionsInserts(ts: seq<TableSpec>, ds: Dataset)
    ensures Selected(DataSections(ts, ds), InsertPrefix) == InsertsOf(ts, ds)
    ensures |InsertsOf(ts, ds)| == RowsOf(ts, ds)
    decreases |ts|
  {
    if ts != [] {
      DataSectionsInserts(ts[1..], ds);
      SelectedAppend(DataSection(ts[0], ds), DataSections(ts[1..], ds), InsertPrefix);
      SectionInserts(ts[0], ds);
    }
  }

  /** DROP lines start with the DROP prefix, CREATE lines with the CREATE prefix. */
  lemma StatementLines(ts: seq<TableSpec>)
    ensures forall i :: 0 <= i < |ts| ==> DropPrefix <= DropLines(ts)[i] && DropLines(ts)[i][0] == 'D'
    ensures forall i :: 0 <= i < |ts| ==> CreatePrefix <= CreateLines(ts)[i] && CreateLines(ts)[i][0] == 'C'
  {
  }

  /** The headings are comments: no statement prefix selects them. */
  lemma HeadingsSelectNone(prefix: string)
    requires |prefix| > 0 && prefix[0] != '-'
    ensures Selected([DropHeading], prefix) == []
    ensures Selected(["", CreateHeading], prefix) == []
    ensures Selected(["", InsertHeading], prefix) == []
  {
    SelectedNone([DropHeading], prefix);
    SelectedNone(["", CreateHeading], prefix);
    SelectedNone(["", InsertHeading], prefix);
  }

  /** Only the statements between the fixed headings can be selected. */
  lemma PreambleParts(dl: seq<string>, cl: seq<string>, prefix: string)
    requires |prefix| > 0 && prefix[0] != '-'
    ensures Selected([DropHeading] + dl + ["", CreateHeading] + cl + ["", InsertHeading], prefix)
            == Selected(dl, prefix) + Selected(cl, prefix)
  {
    var sd := Selected(dl, prefix);
    var sc := Selected(cl, prefix);
    var p2 := [DropHeading] + dl;
    var p3 := p2 + ["", CreateHeading];
    var p4 := p3 + cl;
    HeadingsSelectNone(prefix);
    SelectedAppend([DropHeading], dl, prefix);
    assert [] + sd == sd;
    SelectedAppend(p2, ["", CreateHeading], prefix);
    assert sd + [] == sd;
    SelectedAppend(p3, cl, prefix);
    SelectedAppend(p4, ["", InsertHeading], prefix);
    assert (sd + sc) + [] == sd + sc;
  }

  lemma PreambleDrops()
    ensures Selected(Preamble(), DropPrefix) == DropLines(Tables)
  {
    var dl, cl := DropLines(Tables), CreateLines(Tables);
    PreambleParts(dl, cl, DropPrefix);
    StatementLines(Tables);
    SelectedAll(dl, DropPrefix);
    SelectedNone(cl, DropPrefix);
  }

  lemma PreambleCreates()
    ensures Selected(Preamble(), CreatePrefix) == CreateLines(Tables)
  {
    var dl, cl := DropLines(Tables), CreateLines(Tables);
    PreambleParts(dl, cl, CreatePrefix);
    StatementLines(Tables);
    SelectedNone(dl, CreatePrefix);
    SelectedAll(cl, CreatePrefix);
  }

  lemma PreambleInserts()
    ensures Selected(Preamble(), InsertPrefix) == []
  {
    var dl, cl := DropLines(Tables), CreateLines(Tables);
    PreambleParts(dl, cl, InsertPrefix);
    StatementLines(Tables);
    SelectedNone(dl, InsertPrefix);
    SelectedNone(cl, InsertPrefix);
  }

  /** The data sections hold no DROP and no CREATE. */
  lemma SectionsSelectNone(ds: Dataset, prefix: string)
    requires prefix == DropPrefix || prefix == CreatePrefix
    ensures Selected(DataSections(Tables, ds), prefix) == []
  {
    DataSectionsShape(Tables, ds);
    SelectedNone(DataSections(Tables, ds), prefix);
  }

  /** The DROP statements of the script: one per registry table, in registry order. */
  lemma ScriptDrops(ds: Dataset)
    ensures Selected(Script(ds), DropPrefix) == DropLines(Tables)
    ensures |DropLines(Tables)| == |Tables|
  {
    SelectedAppend(Preamble(), DataSections(Tables, ds), DropPrefix);
    PreambleDrops();
    SectionsSelectNone(ds, DropPrefix);
  }

  /** The CREATE statements of the script: one per registry table, in registry order. */
  lemma ScriptCreates(ds: Dataset)
    ensures Selected(Script(ds), CreatePrefix) == CreateLines(Tables)
    ensures |CreateLines(Tables)| == |Tables|
  {
    SelectedAppend(Preamble(), DataSections(Tables, ds), CreatePrefix);
    PreambleCreates();
    SectionsSelectNone(ds, CreatePrefix);
  }

  /** One INSERT per data row of each present file, table by table in registry order, and no others. */
  lemma ScriptInserts(ds: Dataset)
    ensures Selected(Script(ds), InsertPrefix) == InsertsOf(Tables, ds)
    ensures |Selected(Script(ds), InsertPrefix)| == RowsOf(Tables, ds)
  {
    SelectedAppend(Preamble(), DataSections(Tables, ds), InsertPrefix);
    PreambleInserts();
    DataSectionsInserts(Tables, ds);
  }

  /** Every DROP precedes every CREATE, and every CREATE precedes every INSERT. */
  lemma ScriptPhases(ds: Dataset)
    ensures forall i, j ::
              0 <= i < |Script(ds)| && 0 <= j < |Script(ds)| && DropPrefix <= Script(ds)[i] && CreatePrefix <= Script(ds)[j]
              ==> i < j
    ensures forall i, j ::
              0 <= i < |Script(ds)| && 0 <= j < |Script(ds)| && CreatePrefix <= Script(ds)[i] && InsertPrefix <= Script(ds)[j]
              ==> i < j
  {
    var s := Script(ds);
    var d := DataSections(Tables, ds);
    DataSectionsShape(Tables, ds);
    assert |s| == 13 + |d|;
    forall i | 0 <= i < |s|
      ensures DropPrefix <= s[i] ==> 1 <= i < 5
      ensures CreatePrefix <= s[i] ==> 7 <= i < 11
      ensures InsertPrefix <= s[i] ==> 13 <= i
    {
      var first := if |s[i]| == 0 then ' ' else s[i][0];
      if i >= 13 {
        assert s[i] == d[i - 13];
        assert first == ' ' || first == '-' || first == 'I';
      } else if 7 <= i < 11 {
        assert s[i] == CreateLine(Tables[i - 7]);
        assert first == 'C';
      } else if 1 <= i < 5 {
        assert s[i] == DropLine(Tables[i - 1]);
        assert first == 'D';
      } else {
        assert s[i] in {DropHeading, "", CreateHeading, InsertHeading};
        assert first == ' ' || first == '-';
      }
      assert DropPrefix <= s[i] ==> first == 'D';
      assert CreatePrefix <= s[i] ==> first == 'C';
      assert InsertPrefix <= s[i] ==> first == 'I';
    }
  }
}
