/**
 * The fixed schema registry of the movie-rating loader: four tables, each with
 * ordered (name, declared type) columns, the CSV file it is loaded from and
 * whether its leading `id` column is generated by the database.
 */
module Registry {

  datatype Column = Column(name: string, sqlType: string)

  datatype TableSpec = TableSpec(name: string, columns: seq<Column>, sourceFile: string, hasAutoId: bool)

  const Movies := TableSpec(
    "movies",
    [Column("id", "INTEGER PRIMARY KEY"), Column("title", "TEXT"),
     Column("year", "INTEGER"), Column("genres", "TEXT")],
    "movies.csv", false)

  const Ratings := TableSpec(
    "ratings",
    [Column("id", "INTEGER PRIMARY KEY AUTOINCREMENT"), Column("user_id", "INTEGER"),
     Column("movie_id", "INTEGER"), Column("rating", "REAL"), Column("timestamp", "INTEGER")],
    "ratings.csv", true)

  const Tags := TableSpec(
    "tags",
    [Column("id", "INTEGER PRIMARY KEY AUTOINCREMENT"), Column("user_id", "INTEGER"),
     Column("movie_id", "INTEGER"), Column("tag", "TEXT"), Column("timestamp", "INTEGER")],
    "tags.csv", true)

  const Users := TableSpec(
    "users",
    [Column("id", "INTEGER PRIMARY KEY"), Column("name", "TEXT"), Column("email", "TEXT"),
     Column("gender", "TEXT"), Column("register_date", "TEXT"), Column("occupation", "TEXT")],
    "users.csv", false)

  /** The registry, in the order every loop over it visits the tables. */
  const Tables: seq<TableSpec> := [Movies, Ratings, Tags, Users]

  /**
   * The dataset directory: the CSV files present in it, by file name, each as
   * its data rows (the header row already consumed).
   */
  type Dataset = map<string, seq<seq<string>>>

  function ColumnNames(t: TableSpec): seq<string>
  {
    seq(|t.columns|, i requires 0 <= i < |t.columns| => t.columns[i].name)
  }

  /** How many leading CSV fields are dropped before a row is inserted. */
  function CsvOffset(t: TableSpec): nat
  {
    if t.hasAutoId then 1 else 0
  }

  /** The column list of every INSERT into `t`: the id is left out when the database generates it. */
  function InsertColumns(t: TableSpec): (cols: seq<string>)
    ensures t.hasAutoId && |t.columns| == 0 ==> cols == []
    ensures CsvOffset(t) <= |t.columns| ==> |cols| == |t.columns| - CsvOffset(t)
    ensures forall i :: 0 <= i < |cols| ==>
              i + CsvOffset(t) < |t.columns| && cols[i] == t.columns[i + CsvOffset(t)].name
  {
    var names := ColumnNames(t);
    if t.hasAutoId && |names| > 0 then names[1..] else names
  }

  /** The width every loaded row is repaired to. */
  function ExpectedColumns(t: TableSpec): nat
  {
    |InsertColumns(t)|
  }

  /** The shape of the registry that the loader and the emitter rely on. */
  lemma RegistryShape()
    ensures |Tables| == 4
    ensures forall i, j :: 0 <= i < j < |Tables| ==> Tables[i].name != Tables[j].name
    ensures forall i :: 0 <= i < |Tables| ==>
              |Tables[i].columns| > 0 && Tables[i].columns[0].name == "id"
    ensures InsertColumns(Movies) == ["id", "title", "year", "genres"]
    ensures InsertColumns(Ratings) == ["user_id", "movie_id", "rating", "timestamp"]
    ensures InsertColumns(Tags) == ["user_id", "movie_id", "tag", "timestamp"]
    ensures InsertColumns(Users) == ["id", "name", "email", "gender", "register_date", "occupation"]
  {
  }
}
