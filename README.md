# Movie-rating database loader and SQL command splitter, in Dafny

This project models two pieces of code.

The first is the loader of a movie-rating dataset (`Task02/make_db_init.py`). It has:

- a fixed registry of four tables (movies, ratings, tags, users). Each table has typed columns, a CSV source file, and a flag saying whether its id is generated by the database.
- an emitter that writes a SQL script: the DROP statements, the CREATE statements, and one INSERT per CSV data row, with every field quoted or written as `NULL`.
- a direct loader into SQLite. It prepares every CSV data row:
  - it drops the CSV id on auto-id tables;
  - it pads or truncates the row to the width of the column list;
  - it coerces each field by its column's declared type.
- the batching of the loader. It collects rows into batches of 1000 and bulk-inserts each batch. A batch whose bulk insert fails on a UNIQUE constraint is re-inserted row by row, skipping duplicates. Any other integrity error ends the load.

The second is `Database::splitSQLCommands` of `Task08/public/db.php`. It strips `--` comments, explodes the script at `;`, drops the pieces that PHP's `empty(trim(...))` holds for, and terminates each remaining piece with `;`.

Files:

- `registry.dfy`: the registry, with the insert column lists derived from it.
- `row_prep.dfy`: row preparation. Python's `int()` and `float()` are abstract partial parsers passed in as a value.
- `sql_script.dfy`: the emitted script as a list of lines. It comes with a parser for INSERT lines, so the escaping is proved by a round trip. Lemmas pin down which statements the script holds and in which order.
- `table_store.dfy`: an abstract SQLite table. Its state is the stored rows and the set of stored keys.
  - On a table without a generated id, the first column is the `INTEGER PRIMARY KEY`, so its value is the key. A `NULL` there is stored as the next rowid: one more than the largest integer id stored, or 1 on an empty table. That id is then a key like any other, and a later row giving the same id explicitly fails on UNIQUE.
  - Every other integrity error is a predicate `rejects`, given as a parameter.
  - `execute` and `executemany` are the methods of a `Table` class.
  - `executemany` stops at the first failing row and keeps the rows it wrote before it, since the code uses no savepoint.
- `loader.dfy`:
  - functions that specify a load: `Batches`, `FlushBatch`, `RunBatches`, `LoadSpec`;
  - lemmas about those functions;
  - the loader's own loops as methods proved against them: `InsertRowsIndividually`, `LoadTable`, `CreateDatabase`.
- `split_sql.dfy`: `explode`, `trim`, `empty`, the comment removal and the splitter, with their properties.
- `text.dfy` and `wrappers.dfy`: `join`, substring test, `Option`.

Two behaviours of the loader's code are easy to misread:

- A batch whose bulk insert fails on UNIQUE is not discarded as a unit. The rows written before the failing row stay in the table, and the fallback then inserts the whole batch again.
  - When every row carries a key, the rows already written are skipped as duplicates (`TableStore.FallbackMatchesSkipping`).
  - A row with a `NULL` id is written twice, under two rowids (`TableStore.NullKeyRowWrittenTwice`).
  - A `NULL` id can take the id a later row of the same batch gives explicitly. That later row is then skipped as a duplicate, and the `NULL`-id row is stored twice (`Loader.GeneratedIdClash`).
- The number of stored rows is not the number of rows read minus the duplicates counted. The counter adds the whole batch size whenever a batch conflicts.
  - `Loader.LoadRows` proves that stored rows plus counted duplicates are at least the rows read.
  - `Loader.DuplicatesOverCounted` gives a batch where the two differ: one row of two is a duplicate, one is stored, and two are counted.
  - `Loader.LoadDuplicates` gives a bound on the counter and its remainder modulo 1000.

## Model

| member | source | states |
|---|---|---|
| Registry.InsertColumns | Task02/make_db_init.py:174-185 | The insert column list is the table's column names, without the first on an auto-id table; entry `i` is column `i + offset`. |
| Registry.RegistryShape | Task02/make_db_init.py:16-61 | Four tables with distinct names, each with an `id` first column; the exact insert column lists of movies, ratings, tags and users. |
| RowPrep.DropAutoId | Task02/make_db_init.py:196-198 | On an auto-id table a non-empty row loses exactly its first field; otherwise the row is unchanged. |
| RowPrep.Repair | Task02/make_db_init.py:200-210 | The repaired row has exactly the expected width; its fields are the row's, then `None` padding. |
| RowPrep.CoerceField | Task02/make_db_init.py:212-231 | The result is NULL exactly for a missing or empty field. On an INTEGER-typed column a non-empty field becomes the parsed int, or stays text when it does not parse. On a REAL, non-INTEGER column it becomes the parsed float, or stays text. On any other column it stays text. |
| RowPrep.Coerce | Task02/make_db_init.py:213-231 | Field `i` is coerced by the declared type of column `i + csv_columns_to_use`; the width is kept. |
| RowPrep.Prepare | Task02/make_db_init.py:193-233 | The record has the insert width. A field is NULL exactly when the id-dropped row has no or an empty field there. Every text field is the CSV text at that position. No field is an empty string. |
| RowPrep.PrepareAll | Task02/make_db_init.py:193-233 | One prepared record per CSV data row, in file order. |
| RowPrep.AutoIdIgnored | Task02/make_db_init.py:196-198 | On an auto-id table the CSV id never affects the prepared record. |
| RowPrep.RegistryCoercions | Task02/make_db_init.py:219-231 | Both primary-key types coerce like INTEGER. INTEGER parses as int, REAL as float, and TEXT stays text. |
| RowPrep.MoviesRow | Task02/make_db_init.py:212-233 | A well-formed movies row keeps its id, coerces its year to int and keeps title and genres as text. |
| SqlScript.DoubleQuotes | Task02/make_db_init.py:113 | Python's `replace("'", "''")`: every quote doubled, every other character kept (specified by `DoubleQuotesPlain` and inverted by `ParseQuotedDoubled`). |
| SqlScript.DoubleQuotesPlain | Task02/make_db_init.py:113 | Doubling never shortens a text, and text without quotes is written unchanged. |
| SqlScript.EscapeValue | Task02/make_db_init.py:108-114 | An empty field is written `NULL`, and only an empty field; any other field is a single-quoted literal. |
| SqlScript.ParseQuotedDoubled | Task02/make_db_init.py:113-114 | Reading a quote-doubled body back stops at its closing quote and gives the original text. |
| SqlScript.EscapeRoundTrip | Task02/make_db_init.py:108-114 | An escaped field reads back as the original field whatever follows it. |
| SqlScript.RenderValuesCons | Task02/make_db_init.py:116 | A VALUES list of several fields is the first escaped field, `, `, and the rest. |
| SqlScript.ValuesRoundTrip | Task02/make_db_init.py:108-116 | The VALUES list of a row reads back as exactly that row. |
| SqlScript.ColumnsDef | Task02/make_db_init.py:78 | The column definitions `name type` of a CREATE TABLE, joined by `, `. |
| SqlScript.DropLine | Task02/make_db_init.py:71 | `DROP TABLE IF EXISTS <name>;`: starts with the DROP prefix and ends with `;`. |
| SqlScript.CreateLine | Task02/make_db_init.py:78-79 | `CREATE TABLE <name> (<columns>);`: starts with the CREATE prefix and ends with `;`. |
| SqlScript.InsertHead | Task02/make_db_init.py:88-94 | The fixed part of a table's INSERT up to `VALUES (`, with the insert column list; it starts with `INSERT INTO `. |
| SqlScript.InsertLine | Task02/make_db_init.py:102-117 | The INSERT for one data row: the table's head, the values and `);` (its content is given by `InsertRoundTrip`). |
| SqlScript.InsertRoundTrip | Task02/make_db_init.py:102-117 | An INSERT carries exactly the id-dropped row, one value per field, with no padding or truncation. |
| SqlScript.Script | Task02/make_db_init.py:63-124 | The lines `generate_sql_script` writes: the DROP section, the CREATE section, then one INSERT section per registry table whose file exists (given by `ScriptDrops`, `ScriptCreates`, `ScriptInserts`, `ScriptPhases`). |
| SqlScript.ScriptText | Task02/make_db_init.py:67-119 | The content of the script file: the lines, each ended by a newline, so the text is never empty and ends with a newline. |
| SqlScript.DataSectionsShape | Task02/make_db_init.py:85-121 | Every line of the INSERT sections is blank, a comment or an INSERT. |
| SqlScript.InsertLinesStart | Task02/make_db_init.py:117 | Every line written for a data row is an INSERT. |
| SqlScript.SectionInserts | Task02/make_db_init.py:85-121 | A table's section holds exactly its INSERTs when its file exists, and nothing otherwise. |
| SqlScript.DataSectionsInserts | Task02/make_db_init.py:85-121 | The INSERTs of the sections are those of the present files in registry order, one per data row. |
| SqlScript.StatementLines | Task02/make_db_init.py:70-79 | DROP lines start with `DROP TABLE IF EXISTS `, CREATE lines with `CREATE TABLE `. |
| SqlScript.HeadingsSelectNone | Task02/make_db_init.py:68-84 | The section headings are comments, not statements. |
| SqlScript.PreambleParts | Task02/make_db_init.py:68-84 | Before the data, only the DROP and CREATE lines are statements. |
| SqlScript.PreambleDrops | Task02/make_db_init.py:69-71 | The DROP statements before the data are one per registry table, in order. |
| SqlScript.PreambleCreates | Task02/make_db_init.py:75-79 | The CREATE statements before the data are one per registry table, in order. |
| SqlScript.PreambleInserts | Task02/make_db_init.py:68-84 | No INSERT comes before the data sections. |
| SqlScript.SectionsSelectNone | Task02/make_db_init.py:85-121 | The data sections hold no DROP and no CREATE. |
| SqlScript.ScriptDrops | Task02/make_db_init.py:63-124 | The script's DROP statements are exactly one per registry table, in registry order. |
| SqlScript.ScriptCreates | Task02/make_db_init.py:63-124 | The script's CREATE statements are exactly one per registry table, in registry order. |
| SqlScript.ScriptInserts | Task02/make_db_init.py:63-124 | The script's INSERTs are one per data row of each present file, table by table, and no others. |
| SqlScript.ScriptPhases | Task02/make_db_init.py:63-124 | Every DROP precedes every CREATE, and every CREATE precedes every INSERT. |
| TableStore.Insert | Task02/make_db_init.py:293-302 | An INSERT fails otherwise exactly when the record is refused. It fails on UNIQUE exactly when it gives an id explicitly and that id is already stored. On success it appends the record as stored (a `NULL` id replaced by the next rowid) and adds its key. |
| TableStore.NextRowid | Task02/make_db_init.py:237-240 | The rowid SQLite gives a `NULL` id: one more than every integer id stored, and equal to one more than some stored id, or 1 when no integer id is stored (given by `NextRowidBound`). |
| TableStore.NextRowidBound | Task02/make_db_init.py:237-240 | Every stored integer id is below the next rowid. The next rowid is one more than a stored id, or 1 when none is stored. |
| TableStore.Written | Task02/make_db_init.py:237-240 | The record as stored: a `NULL` id on a keyed table becomes the next rowid, everything else is kept. |
| TableStore.FillShape | Task02/make_db_init.py:237-240 | A batch as stored keeps its length and every field but a `NULL` id, which becomes an integer. It is the batch itself when no id is left to SQLite. |
| TableStore.FillKeys | Task02/make_db_init.py:237-240 | A batch as stored keeps every id the batch gives explicitly. |
| TableStore.InsertMany | Task02/make_db_init.py:237-240 | `executemany`: rows in order until the first failure, keeping the rows written before it (given by `InsertManyOk`, `InsertManyStops`). |
| TableStore.InsertEach | Task02/make_db_init.py:291-302 | Row-by-row insertion skipping UNIQUE failures and stopping at any other (given by `InsertEachStatus`, `InsertEachKeys`, `InsertEachRows`). |
| TableStore.InsertConsistent | Task02/make_db_init.py:17-19 | An INSERT keeps every key stored at most once and the key set equal to the stored keys. |
| TableStore.InsertEachConsistent | Task02/make_db_init.py:237-240 | Bulk and row-by-row insertion keep every key stored at most once. |
| TableStore.InsertManyOk | Task02/make_db_init.py:237-241 | A successful bulk insert appends the whole batch, as stored, and its keys. |
| TableStore.InsertManyStops | Task02/make_db_init.py:236-242 | A failed bulk insert has written a prefix of the batch and failed on the row right after it. |
| TableStore.InsertEachStatus | Task02/make_db_init.py:291-302 | Row-by-row insertion never ends on UNIQUE, and fails exactly when some row is refused otherwise. |
| TableStore.InsertEachKeys | Task02/make_db_init.py:291-302 | After row-by-row insertion the key set holds the old keys and the batch's explicit ids. It is exactly those when the batch leaves no id to SQLite. |
| TableStore.InsertEachRows | Task02/make_db_init.py:291-302 | Row-by-row insertion only appends, at most one row per batch row, and all of them on a table without a key. |
| TableStore.InsertEachAppend | Task02/make_db_init.py:291-302 | Row-by-row insertion of `a + b` is that of `a`, then of `b` if `a` succeeded. |
| TableStore.InsertManyOkIsInsertEach | Task02/make_db_init.py:236-245 | A bulk insert without failure inserts like row-by-row insertion. |
| TableStore.InsertEachPresentKeys | Task02/make_db_init.py:297-300 | Rows whose keys are already stored are all skipped and change nothing. |
| TableStore.FallbackMatchesSkipping | Task02/make_db_init.py:242-246 | When every batch row has a key, the fallback after a UNIQUE failure ends as duplicate-skipping insertion from before the bulk insert. |
| TableStore.WrittenNotRejected | Task02/make_db_init.py:236-241 | No row a successful bulk insert wrote was refused. |
| TableStore.NullKeyRowWrittenTwice | Task02/make_db_init.py:242-246 | A NULL-id row written before the conflicting row is stored twice by the fallback, under rowids 2 and 3. |
| TableStore.Table.constructor | Task02/make_db_init.py:160-162 | A created table is consistent, empty and has the given constraints. |
| TableStore.Table.Execute | Task02/make_db_init.py:293-296 | `execute` changes the table as one INSERT does and keeps it consistent. |
| TableStore.Table.ExecuteMany | Task02/make_db_init.py:237-240 | `executemany` changes the table as a bulk insert does and keeps it consistent. |
| Loader.Batches | Task02/make_db_init.py:188-262 | The batches the loader flushes: consecutive runs of 1000 rows and a shorter last one (given by `BatchesFlatten`, `BatchesSizes`, `BatchesLast`). |
| Loader.FlushBatch | Task02/make_db_init.py:235-249 | One bulk insert, with the row-by-row fallback when it fails on UNIQUE, and whether it did. |
| Loader.RunBatches | Task02/make_db_init.py:233-264 | The flushes in order, stopping at the first failure, counting a conflicted batch's size as duplicates. |
| Loader.LoadSpec | Task02/make_db_init.py:188-264 | A table's load: its prepared rows, batched and flushed (computed by `LoadTable` via `FeedIsLoad`). |
| Loader.Extend | Task02/make_db_init.py:235-262 | One flush added to a run, with the counter raised by the batch size on conflict. |
| Loader.Feed | Task02/make_db_init.py:193-264 | The row loop as a state machine: each row joins the batch, a batch of 1000 is flushed, the rest is flushed at the end, and the first failure ends it (equal to `RunBatches` by `FeedIsRunBatches`). |
| Loader.TableConstraints | Task02/make_db_init.py:160-162 | What SQLite enforces on a registry table: its id is a key exactly when the database does not generate it. |
| Loader.TableLoad | Task02/make_db_init.py:165-168 | A registry table's load from its file into a new, empty table; a table whose file is missing stays empty. |
| Loader.BatchesFlatten | Task02/make_db_init.py:188-264 | Every prepared row is submitted exactly once, in file order. |
| Loader.BatchesSizes | Task02/make_db_init.py:233-257 | Every batch but the last holds 1000 rows and the last 1 to 1000; their number is the row count divided by 1000, rounded up. |
| Loader.BatchesLast | Task02/make_db_init.py:251-257 | The batch flushed after the loop holds the remainder of the row count. |
| Loader.BatchesCons | Task02/make_db_init.py:233-241 | A full batch at the front is the first batch. |
| Loader.RunBatchesAppend | Task02/make_db_init.py:233-264 | Flushing `a + b` is flushing `a`, then `b` if `a` succeeded, adding the duplicate counts. |
| Loader.FlushStatus | Task02/make_db_init.py:235-249 | A flush never ends on a UNIQUE failure. |
| Loader.RunStatus | Task02/make_db_init.py:233-264 | A load never ends on a UNIQUE failure. |
| Loader.FlushIsInsertEach | Task02/make_db_init.py:235-249 | When every row has a key, or the table has none, a flush is duplicate-skipping row-by-row insertion. |
| Loader.RunIsInsertEach | Task02/make_db_init.py:233-264 | Under the same condition, the flushes together are row-by-row insertion of all rows. |
| Loader.LoadIsInsertEach | Task02/make_db_init.py:188-264 | Under the same condition, a table's load is duplicate-skipping insertion of its prepared rows, in file order. |
| Loader.FlushKeys | Task02/make_db_init.py:235-249 | A successful flush stores the old keys and the batch's explicit ids, and exactly those when no id of the batch is NULL. |
| Loader.RunKeys | Task02/make_db_init.py:233-264 | Successful flushes store the old keys and all explicit ids of the batches, and exactly those when no id is NULL. |
| Loader.LoadKeys | Task02/make_db_init.py:188-264 | After a successful load the key set holds the old keys and the ids of the prepared rows, and exactly those when no prepared id is NULL. |
| Loader.RunConsistent | Task02/make_db_init.py:233-264 | Flushing keeps every key stored at most once. |
| Loader.LoadConsistent | Task02/make_db_init.py:188-264 | A load keeps every key stored at most once and the key set equal to the stored keys. |
| Loader.FlushRows | Task02/make_db_init.py:235-249 | A flush only appends; stored rows plus the batch size when conflicted are at least the old rows plus the batch. |
| Loader.RunRows | Task02/make_db_init.py:233-264 | Flushes only append; stored rows plus counted duplicates are at least the old rows plus all rows. |
| Loader.LoadRows | Task02/make_db_init.py:188-266 | A load only appends; stored rows plus counted duplicates are at least the rows held plus the rows read. |
| Loader.CountArithmetic | Task02/make_db_init.py:247 | Adding 0 or 1000 to a counter of the form of `BatchDuplicates` keeps that form. |
| Loader.BatchDuplicates | Task02/make_db_init.py:247-262 | The counter is at most the row count, and a multiple of 1000 or that plus the remainder of the row count. |
| Loader.LoadDuplicates | Task02/make_db_init.py:247-262 | The same bound for a table's load, whatever rows were actually duplicates. |
| Loader.DuplicatesOverCounted | Task02/make_db_init.py:242-247 | A two-row batch with one duplicate stores one row and counts two duplicates. |
| Loader.GeneratedIdClash | Task02/make_db_init.py:236-249 | On an empty table the batch `[NULL, 7], [1, 8]` ends with the first row stored under ids 1 and 2, the row with id 1 lost, and two duplicates counted. |
| Loader.UnkeyedRunNoDuplicates | Task02/make_db_init.py:233-264 | On a table without a key no duplicate is ever counted. |
| Loader.UnkeyedLoad | Task02/make_db_init.py:188-264 | On a table without a key and with no refused row, a load succeeds, appends every prepared row in order and counts no duplicates. |
| Loader.InsertRowsIndividually | Task02/make_db_init.py:287-302 | The table after the loop is that of duplicate-skipping row-by-row insertion, and the method stops at the first other error. |
| Loader.FlushTable | Task02/make_db_init.py:235-249 | The try/except around one bulk insert changes the table as the flush specification does. |
| Loader.FeedIsRunBatches | Task02/make_db_init.py:193-264 | Reading the rows one by one and flushing at 1000 and at the end flushes exactly the batches `Batches` cuts. |
| Loader.FeedIsLoad | Task02/make_db_init.py:188-264 | The row loop computes the load of the table. |
| Loader.FlushCounted | Task02/make_db_init.py:235-262 | One flush with the duplicate counter raised by the increment when the batch conflicted. |
| Loader.LoadTable | Task02/make_db_init.py:170-268 | The table after the loop is that of the load. It reports the rows read and the duplicates counted, or failure exactly when the load fails. |
| Loader.AutoIdTableLoad | Task02/make_db_init.py:165-264 | A ratings or tags file with no refused row is stored whole, in file order, with no duplicate counted. |
| Loader.TableLoadConsistent | Task02/make_db_init.py:165-264 | Every table a load gives holds each id at most once. |
| Loader.NewTables | Task02/make_db_init.py:160-162 | One fresh, empty, consistent table per registry entry, with that entry's constraints. |
| Loader.LoadNew | Task02/make_db_init.py:165-170 | A table whose file exists is loaded from it; a table without one stays empty and counts as success. |
| Loader.LoadTables | Task02/make_db_init.py:165-268 | Loading in registry order succeeds exactly when every table's load does, and then every table holds its load. |
| Loader.CreateTables | Task02/make_db_init.py:158-276 | Same, for creating then loading the given tables. |
| Loader.CreateDatabase | Task02/make_db_init.py:146-285 | `create_database` succeeds exactly when every registry table's load succeeds, and then each table holds what its load gives. |
| Text.Join | Task02/make_db_init.py:116 | `", ".join`: the parts with the separator between them; `explode` inverts it (`SplitSql.ExplodeJoin`, `SplitSql.JoinExplode`). |
| SplitSql.SplitSqlCommands | Task08/public/db.php:53-71 | `splitSQLCommands`: comments removed, then the commands of the pieces between `;` (given by `SplitShape`, `SplitCount`, `SplitJoined`, `SplitIdempotent`). |
| SplitSql.StripComments | Task08/public/db.php:55 | `preg_replace('/--.*$/m', '', ...)`: every line cut at its leftmost `--` (given by `StripNoDoubleDash`, `StripIdentity`, `StripLines`). |
| SplitSql.Keep | Task08/public/db.php:61-63 | `!empty(trim($cmd))`: the trimmed piece is neither "" nor "0". |
| SplitSql.Terminate | Task08/public/db.php:66-68 | `trim($cmd) . ';'`. |
| SplitSql.Commands | Task08/public/db.php:58-68 | `array_filter` then `array_map` over the pieces, in order (given by `CommandsFromPieces`, `PiecesGiveCommands`, `CommandsAppend`). |
| SplitSql.IndexOf | Task08/public/db.php:58 | The first occurrence of the separator, or the length when there is none. |
| SplitSql.Explode | Task08/public/db.php:58 | `explode` always gives at least one piece. |
| SplitSql.ExplodeCons | Task08/public/db.php:58 | A separator-free piece followed by the separator is the first piece. |
| SplitSql.ExplodeNone | Task08/public/db.php:58 | A text without the separator is a single piece. |
| SplitSql.ExplodeJoin | Task08/public/db.php:58 | Joining the pieces with the separator gives the text back. |
| SplitSql.JoinExplode | Task08/public/db.php:58 | Exploding separator-free pieces joined by the separator gives the pieces back. |
| SplitSql.ExplodeNoSep | Task08/public/db.php:58 | No piece contains the separator. |
| SplitSql.CountAppend | Task08/public/db.php:58 | Occurrence counts add over concatenation. |
| SplitSql.CountNone | Task08/public/db.php:58 | A text without the character has none of it. |
| SplitSql.ExplodeCount | Task08/public/db.php:58 | There is one piece more than there are separators. |
| SplitSql.Lead | Task08/public/db.php:62 | The leading spaces of the text, the next character not a space. |
| SplitSql.Tail | Task08/public/db.php:62 | The trailing spaces after a position, the character before them not a space. |
| SplitSql.Trim | Task08/public/db.php:62 | `trim` gives a trimmed middle of the text with only spaces around it. |
| SplitSql.TrimExact | Task08/public/db.php:62 | `trim` removes exactly the spaces around a trimmed text. |
| SplitSql.Filter | Task08/public/db.php:61-63 | The kept values satisfy the predicate, come from the input, and are no more than the input. |
| SplitSql.FilterComplete | Task08/public/db.php:61-63 | Every value the predicate accepts is kept. |
| SplitSql.FilterAppend | Task08/public/db.php:61-63 | Filtering distributes over concatenation. |
| SplitSql.Map | Task08/public/db.php:66-68 | `array_map` applies the function to each element, keeping the length. |
| SplitSql.MapAppend | Task08/public/db.php:66-68 | Mapping distributes over concatenation. |
| SplitSql.DashAt | Task08/public/db.php:55 | The leftmost `--` of a line, or its length. |
| SplitSql.CutLine | Task08/public/db.php:55 | A line is cut to a prefix free of `--`. It is unchanged exactly when it has no `--`. Otherwise it is cut right before a `--` that no `-` precedes, so before its leftmost `--`, at `DashAt`. |
| SplitSql.CutLines | Task08/public/db.php:55 | Each line is cut on its own. |
| SplitSql.NoDoubleDashConcat | Task08/public/db.php:55 | Two texts free of `--` that do not meet at two dashes give a text free of `--`. |
| SplitSql.SliceNoDoubleDash | Task08/public/db.php:55 | A slice of a text free of `--` is free of `--`. |
| SplitSql.JoinNoDoubleDash | Task08/public/db.php:55 | Lines free of `--` joined by newlines give a text free of `--`. |
| SplitSql.ExplodeNoDoubleDash | Task08/public/db.php:55-58 | Pieces of a text free of `--` are free of `--`. |
| SplitSql.StripNoDoubleDash | Task08/public/db.php:55 | No `--` survives comment removal. |
| SplitSql.StripIdentity | Task08/public/db.php:55 | Comment removal changes a text exactly when it holds a `--`. |
| SplitSql.StripLines | Task08/public/db.php:55 | Comment removal keeps the lines, each cut at its leftmost `--`. |
| SplitSql.CutBeforeDashes | Task08/public/db.php:55 | A line whose text before a `--` holds no `-` is cut right before that `--`, whatever follows it. |
| SplitSql.CommandsAppend | Task08/public/db.php:61-68 | Filtering and terminating pieces distributes over concatenation. |
| SplitSql.CommandsCons | Task08/public/db.php:61-68 | A first piece gives a command exactly when `empty(trim(...))` does not hold for it. |
| SplitSql.KeptPiece | Task08/public/db.php:61-67 | A trimmed piece other than "" and "0" is kept and gives itself plus `;`. |
| SplitSql.TrimmedPiece | Task08/public/db.php:61-67 | A kept piece free of `;` and `--` gives a well-formed command. |
| SplitSql.CommandsShape | Task08/public/db.php:58-68 | Pieces free of `;` and `--` give only well-formed commands. |
| SplitSql.SplitShape | Task08/public/db.php:53-71 | Every command ends with its only `;`, holds no `--`, and has a trimmed body other than "" and "0". |
| SplitSql.SplitCount | Task08/public/db.php:53-71 | There is at most one command more than there are `;` in the text left after comment removal. |
| SplitSql.SpacesDropped | Task08/public/db.php:61-63 | A piece made only of spaces holds no `;` and is dropped. |
| SplitSql.SpacedBody | Task08/public/db.php:61-67 | Spaces followed by a command's body form a piece that gives the command back. |
| SplitSql.ResplitStep | Task08/public/db.php:53-71 | The first command of a joined text comes back from its first piece. |
| SplitSql.ResplitJoined | Task08/public/db.php:53-71 | Commands joined by newlines, after leading spaces, split back into the same commands. |
| SplitSql.SplitJoined | Task08/public/db.php:53-71 | Well-formed commands joined by newlines split back into themselves. |
| SplitSql.SplitIdempotent | Task08/public/db.php:53-71 | Splitting is idempotent on its own output joined by newlines. |
| SplitSql.CommandsFromPieces | Task08/public/db.php:58-68 | Every command is a kept piece, trimmed and terminated. |
| SplitSql.PiecesGiveCommands | Task08/public/db.php:58-68 | Every kept piece gives a command. |
| SplitSql.SplitTwo | Task08/public/db.php:53-71 | Two plain pieces around one `;` give exactly two commands. |
| SplitSql.SemicolonInQuotes | Task08/public/db.php:55-58 | A `;` inside a quoted value splits the statement in two. |
| SplitSql.DashesInQuotes | Task08/public/db.php:55-58 | A `--` inside a quoted value cuts off the rest of its line, closing quote and `;` included. |

## Left out

- File and console I/O are not modelled.
  - The script is returned as a list of lines and as text rather than written to `db_init.sql`.
  - The dataset directory is a map from file name to data rows; `exists()` is membership in that map.
  - Progress and warning messages, `analyze_csv_structure`, `verify_database_content` and `main` only print. They are not modelled.
- CSV parsing (`csv.reader`) is not modelled: the rows come already split into fields, with the header consumed.
- A CSV file without even a header line is not modelled. There `next(reader)` raises. `generate_sql_script` then propagates the error, and `create_database` rolls back and returns False.
- Python's `int()` and `float()` are abstract partial functions (`RowPrep.Parsers`). The model does not fix which texts parse. Floats are reals.
- `value is None` in the script emitter never holds for `csv.reader` output, so only the empty-string case is modelled.
- SQLite itself is abstract.
  - A table is its stored rows and its key set; type affinity and storage classes are not modelled.
  - Integrity errors other than UNIQUE, such as a datatype mismatch on an `INTEGER PRIMARY KEY`, are a caller-given predicate `rejects`. Other kinds of exceptions end the load the same way and are covered by it.
  - On the auto-id tables (ratings, tags) the id the database fills in is not part of the stored record, and its values are not modelled.
  - Rowids are unbounded integers. SQLite's fallback to a random unused rowid once the largest rowid reaches 2^63 - 1 is not modelled.
  - Keys are compared as values, so a text key never clashes with an integer key. In SQLite an `INTEGER PRIMARY KEY` converts a text id such as `"1.0"` or `"1e3"`, which Python's `int()` rejects, to an integer, and that id can then clash with an integer id.
- Loader.LoadKeys states the key set exactly only for prepared rows without a `NULL` id on a keyed table. Otherwise it states that the old keys and the explicit ids are all present; the extra keys are the rowids SQLite generated. `Loader.FlushKeys`, `Loader.RunKeys` and `TableStore.InsertEachKeys` are stated the same way.
- Removing the old database file, `commit`, `rollback` and `close` are not modelled. `Loader.CreateDatabase` starts from newly created tables and, on failure, returns the tables as the failing load left them, without undoing anything.
- The per-table row and duplicate counts of a load are returned rather than printed, and the loaded tables are returned rather than committed to a database file.
- The PHP `Database` class is left out: the PDO connection, the singleton, `initializeDatabase`'s `exec` loop and its handling of "no such table" errors.
- `array_filter` in `splitSQLCommands` keeps the original array keys. The model returns the commands as a sequence in the same order. `foreach` visits them in that order, so nothing observable is lost.
- PHP strings are byte strings; the model works on characters. `trim`'s default character list (space, tab, newline, carriage return, NUL, vertical tab) is modelled exactly.
