/**
 * load.py: the SQL text the loader sends, the split of a destination into
 * schema and table, pandas' `to_sql` with the COPY insertion method, and
 * `to_table`, which truncates an existing table before appending to it.
 */
module Load {
  import opened Wrappers
  import opened Text
  import opened Frames
  import opened Store

  const QUOTE: char := '"'

  /** A double-quoted identifier, written as the f-strings write it: no escaping. */
  function Quote(k: string): string
  {
    [QUOTE] + k + [QUOTE]
  }

  function QuotedAll(keys: seq<string>): (r: seq<string>)
    ensures |r| == |keys| && forall i :: 0 <= i < |keys| ==> r[i] == Quote(keys[i])
  {
    seq(|keys|, i requires 0 <= i < |keys| => Quote(keys[i]))
  }

  /** `', '.join(f'"{k}"' for k in keys)`. */
  function ColumnList(keys: seq<string>): string
  {
    Join(QuotedAll(keys), ", ")
  }

  /** `"schema"."table"`. */
  function QualifiedName(id: TableId): string
  {
    Quote(id.schema) + "." + Quote(id.name)
  }

  /** The statement of _truncate_table, with the layout of its triple-quoted f-string. */
  function TruncateSql(id: TableId): (r: string)
    ensures |r| > 0 && r[0] == '\n'
  {
    "\n" + Repeat(' ', 12) + "TRUNCATE TABLE " + QualifiedName(id) + ";\n" + Repeat(' ', 8)
  }

  /** The statement _psql_insert_copy hands to copy_expert. */
  function CopySql(id: TableId, keys: seq<string>): string
  {
    "COPY " + QualifiedName(id) + " (" + ColumnList(keys) + ") FROM STDIN WITH CSV"
  }

  /** The ten-minute limit to_table sets before the upload. */
  const TIMEOUT_SQL := "SET statement_timeout = 600000;"

  /** `schema, table = destination.split(".")`: exactly two pieces, or nothing. */
  function ParseDestination(destination: string): (r: Option<TableId>)
    ensures var pieces := SplitOn(destination, ".");
      r.Some? <==> |pieces| == 2
  {
    var pieces := SplitOn(destination, ".");
    if |pieces| == 2 then Some(TableId(pieces[0], pieces[1])) else None
  }

  /**
   * A destination splits exactly when it is a schema and a table, neither holding
   * a '.', joined by one '.'; the split gives back that schema and table.
   */
  lemma ParseDestinationMeaning(destination: string)
    ensures ParseDestination(destination).Some? ==>
      var id := ParseDestination(destination).value;
      && '.' !in id.schema && '.' !in id.name
      && destination == id.schema + "." + id.name
  {
    var pieces := SplitOn(destination, ".");
    if |pieces| == 2 {
      SplitCharPiecesFree(destination, '.');
      JoinOfSplit(destination, ".");
      assert pieces[1..] == [pieces[1]];
    }
  }

  lemma ParseDestinationOfParts(schema: string, table: string)
    requires '.' !in schema && '.' !in table
    ensures ParseDestination(schema + "." + table) == Some(TableId(schema, table))
  {
    var parts := [schema, table];
    assert parts[1..] == [table];
    assert Join(parts, ".") == schema + "." + table;
    SplitOfJoin(parts, '.');
  }

  // ---------------------------------------------------------------- identifiers in the SQL text

  lemma QuoteAt(x: string, s: string)
    ensures (Quote(x) + s)[|x| + 1] == QUOTE
    ensures forall i :: 0 <= i < |x| ==> (Quote(x) + s)[i + 1] == x[i]
  {
  }

  /** Two quoted identifiers that start two equal texts are the same, as are the texts after them. */
  lemma QuotedPrefix(x: string, s: string, y: string, t: string)
    requires QUOTE !in x && QUOTE !in y
    requires Quote(x) + s == Quote(y) + t
    ensures x == y && s == t
  {
    var l := Quote(x) + s;
    QuoteAt(x, s);
    QuoteAt(y, t);
    if |x| < |y| {
      assert false;
    }
    if |y| < |x| {
      assert false;
    }
    assert x == l[1..|x| + 1];
    assert y == (Quote(y) + t)[1..|y| + 1];
    assert s == l[|x| + 2..];
    assert t == (Quote(y) + t)[|y| + 2..];
  }

  lemma ColumnListCons(keys: seq<string>)
    requires |keys| > 0
    ensures ColumnList(keys) == Quote(keys[0]) + (if |keys| == 1 then "" else ", " + ColumnList(keys[1..]))
  {
    if |keys| > 1 {
      assert QuotedAll(keys)[1..] == QuotedAll(keys[1..]);
    }
  }

  predicate QuoteFree(keys: seq<string>)
  {
    forall i :: 0 <= i < |keys| ==> QUOTE !in keys[i]
  }

  /** Different lists of identifiers without '"' give different column lists. */
  lemma {:induction false} ColumnListInjective(a: seq<string>, b: seq<string>)
    requires QuoteFree(a) && QuoteFree(b)
    requires ColumnList(a) == ColumnList(b)
    ensures a == b
    decreases |a|
  {
    if |a| > 0 {
      ColumnListCons(a);
    }
    if |b| > 0 {
      ColumnListCons(b);
    }
    if |a| > 0 && |b| > 0 {
      var restA := if |a| == 1 then "" else ", " + ColumnList(a[1..]);
      var restB := if |b| == 1 then "" else ", " + ColumnList(b[1..]);
      QuotedPrefix(a[0], restA, b[0], restB);
      if |a| > 1 && |b| > 1 {
        assert ColumnList(a[1..]) == restA[2..] == restB[2..] == ColumnList(b[1..]);
        assert QuoteFree(a[1..]) && QuoteFree(b[1..]) by {
          assert forall i :: 0 <= i < |a| - 1 ==> a[1..][i] == a[i + 1];
          assert forall i :: 0 <= i < |b| - 1 ==> b[1..][i] == b[i + 1];
        }
        ColumnListInjective(a[1..], b[1..]);
        assert a == [a[0]] + a[1..] && b == [b[0]] + b[1..];
      }
    }
  }

  /** The COPY statement cut after its keyword: the schema, then the rest. */
  lemma CopySqlShape(id: TableId, keys: seq<string>)
    ensures CopySql(id, keys)[5..]
      == Quote(id.schema) + ("." + Quote(id.name) + (" (" + ColumnList(keys) + ") FROM STDIN WITH CSV"))
  {
  }

  /** Equal texts with the same prefix and suffix have equal middles. */
  lemma Middle(p: string, c1: string, c2: string, q: string)
    requires p + c1 + q == p + c2 + q
    ensures c1 == c2
  {
    assert c1 == (p + c1 + q)[|p|..|p| + |c1|];
    assert c2 == (p + c2 + q)[|p|..|p| + |c2|];
  }

  /**
   * For identifiers without '"', the COPY statement names exactly one table and
   * one column list: equal statements have equal targets.
   */
  lemma CopySqlDeterminesTarget(id1: TableId, keys1: seq<string>, id2: TableId, keys2: seq<string>)
    requires QUOTE !in id1.schema && QUOTE !in id1.name && QuoteFree(keys1)
    requires QUOTE !in id2.schema && QUOTE !in id2.name && QuoteFree(keys2)
    requires CopySql(id1, keys1) == CopySql(id2, keys2)
    ensures id1 == id2 && keys1 == keys2
  {
    var tail := ") FROM STDIN WITH CSV";
    var l1 := " (" + ColumnList(keys1) + tail;
    var l2 := " (" + ColumnList(keys2) + tail;
    CopySqlShape(id1, keys1);
    CopySqlShape(id2, keys2);
    QuotedPrefix(id1.schema, "." + Quote(id1.name) + l1, id2.schema, "." + Quote(id2.name) + l2);
    QualifiedTail(id1.name, l1, id2.name, l2);
    Middle(" (", ColumnList(keys1), ColumnList(keys2), tail);
    ColumnListInjective(keys1, keys2);
  }

  /** After the schema and its '.', the quoted table name and the text after it. */
  lemma QualifiedTail(x: string, s: string, y: string, t: string)
    requires QUOTE !in x && QUOTE !in y
    requires "." + Quote(x) + s == "." + Quote(y) + t
    ensures x == y && s == t
  {
    assert Quote(x) + s == ("." + Quote(x) + s)[1..];
    assert Quote(y) + t == ("." + Quote(y) + t)[1..];
    QuotedPrefix(x, s, y, t);
  }

  /** Without escaping, a '"' inside a column name makes one column read as two. */
  lemma UnescapedQuoteIsAmbiguous()
    ensures ColumnList(["a\", \"b"]) == ColumnList(["a", "b"])
  {
    var q := QuotedAll(["a", "b"]);
    assert q == [Quote("a"), Quote("b")];
    assert q[1..] == [Quote("b")];
    assert QuotedAll(["a\", \"b"]) == [Quote("a\", \"b")];
  }

  // ---------------------------------------------------------------- to_sql and to_table

  /** The `if_exists` argument of to_sql. */
  datatype IfExists = Fail | Append

  /**
   * `df.to_sql(...)` with `method=_psql_insert_copy`: create the table if needed,
   * then COPY the rows. pandas does not call the insertion method for a frame
   * without rows, so then no COPY is sent and the call succeeds.
   */
  function ToSqlSpec(tables: map<TableId, Table>, id: TableId, f: Frame, mode: IfExists): (o: Outcome)
    requires WellFormed(f)
  {
    if id in tables && mode == Fail then Outcome(tables, [], Err(TableAlreadyExists))
    else
      var created := if id in tables then tables else tables[id := Table(f.names, [])];
      var creation := if id in tables then [] else [Create(id, f.names)];
      if f.height == 0 then Outcome(created, creation, Ok(()))
      else
        var copied := CopySpec(created, id, f.names, Rows(f));
        Outcome(copied.0, creation + [Copy(CopySql(id, f.names), Rows(f))], copied.1)
  }

  /** The last connection of to_table: the statement timeout, then to_sql. */
  function TimedLoadSpec(tables: map<TableId, Table>, id: TableId, f: Frame, mode: IfExists,
                         accepts: string -> bool): (o: Outcome)
    requires WellFormed(f)
  {
    var preamble := [Connect, Statement(TIMEOUT_SQL)];
    if !accepts(TIMEOUT_SQL) then Outcome(tables, preamble, Err(SqlFailed(TIMEOUT_SQL)))
    else
      var load := ToSqlSpec(tables, id, f, mode);
      Outcome(load.tables, preamble + load.events, load.result)
  }

  /** What `to_table(df, destination, pg_conn_string)` does to the server and returns. */
  function ToTableSpec(tables: map<TableId, Table>, f: Frame, destination: string,
                       connection: Option<string>, accepts: string -> bool): (o: Outcome)
    requires WellFormed(f)
  {
    if connection.None? then Outcome(tables, [], Err(MissingConnectionString))
    else match ParseDestination(destination)
    case None => Outcome(tables, [], Err(BadDestination(destination)))
    case Some(id) => LoadIntoSpec(tables, id, f, accepts)
  }

  /**
   * to_table once the destination names `id`: probe, truncate an existing table,
   * then the timed load. A refused TRUNCATE raises and ends to_table there.
   */
  function LoadIntoSpec(tables: map<TableId, Table>, id: TableId, f: Frame, accepts: string -> bool): (o: Outcome)
    requires WellFormed(f)
  {
    var present := id in tables;
    if present && !accepts(TruncateSql(id)) then
      Outcome(tables, [Connect, Probe(id), Connect, Statement(TruncateSql(id))], Err(SqlFailed(TruncateSql(id))))
    else
    var truncated := if present then tables[id := Table(tables[id].columns, [])] else tables;
    var probed := [Connect, Probe(id)] + (if present then [Connect, Statement(TruncateSql(id))] else []);
    var load := TimedLoadSpec(truncated, id, f, if present then Append else Fail, accepts);
    Outcome(load.tables, probed + load.events, load.result)
  }

  /** `_psql_insert_copy`: one COPY of the rows, naming the table and the frame's columns. */
  method InsertCopy(db: Database, id: TableId, keys: seq<string>, rows: seq<seq<Value>>) returns (r: Result<()>)
    modifies db
    ensures (db.tables, r) == CopySpec(old(db.tables), id, keys, rows)
    ensures db.log == old(db.log) + [Copy(CopySql(id, keys), rows)]
  {
    r := db.CopyFrom(id, keys, CopySql(id, keys), rows);
  }

  method ToSql(db: Database, id: TableId, df: DataFrame, mode: IfExists) returns (r: Result<()>)
    requires df.Valid()
    modifies db
    ensures var o := ToSqlSpec(old(db.tables), id, df.Contents(), mode);
      db.tables == o.tables && db.log == old(db.log) + o.events && r == o.result
  {
    var present := id in db.tables;
    if present && mode == Fail {
      return Err(TableAlreadyExists);
    }
    if !present {
      db.CreateTable(id, df.columns);
    }
    if df.length == 0 {
      return Ok(());
    }
    r := InsertCopy(db, id, df.columns, Rows(df.Contents()));
  }

  /** `with engine.connect() as conn`: set the timeout, then to_sql on that connection. */
  method TimedLoad(db: Database, id: TableId, df: DataFrame, mode: IfExists) returns (r: Result<()>)
    requires df.Valid()
    modifies db
    ensures var o := TimedLoadSpec(old(db.tables), id, df.Contents(), mode, db.accepts);
      db.tables == o.tables && db.log == old(db.log) + o.events && r == o.result
  {
    db.Open();
    var done :- db.Execute(TIMEOUT_SQL);
    r := ToSql(db, id, df, mode);
  }

  method ToTable(db: Database, df: DataFrame, destination: string, connection: Option<string>) returns (r: Result<()>)
    requires df.Valid()
    modifies db
    ensures var o := ToTableSpec(old(db.tables), df.Contents(), destination, connection, db.accepts);
      db.tables == o.tables && db.log == old(db.log) + o.events && r == o.result
  {
    if connection.None? {
      return Err(MissingConnectionString);
    }
    var parsed := ParseDestination(destination);
    if parsed.None? {
      return Err(BadDestination(destination));
    }
    r := LoadInto(db, parsed.value, df);
  }

  method LoadInto(db: Database, id: TableId, df: DataFrame) returns (r: Result<()>)
    requires df.Valid()
    modifies db
    ensures var o := LoadIntoSpec(old(db.tables), id, df.Contents(), db.accepts);
      db.tables == o.tables && db.log == old(db.log) + o.events && r == o.result
  {
    db.Open();
    var present := db.TableExists(id);
    var mode := Fail;
    if present {
      db.Open();
      var done :- db.Truncate(id, TruncateSql(id));
      mode := Append;
    }
    r := TimedLoad(db, id, df, mode);
  }

  // ---------------------------------------------------------------- properties of to_table

  /** Without a connection string nothing is sent and nothing changes. */
  lemma NoConnectionNoEffect(tables: map<TableId, Table>, f: Frame, destination: string, accepts: string -> bool)
    requires WellFormed(f)
    ensures ToTableSpec(tables, f, destination, None, accepts) == Outcome(tables, [], Err(MissingConnectionString))
  {
  }

  /** A destination that does not split into schema and table is refused before anything is sent. */
  lemma BadDestinationNoEffect(tables: map<TableId, Table>, f: Frame, destination: string, conn: string, accepts: string -> bool)
    requires WellFormed(f)
    ensures var o := ToTableSpec(tables, f, destination, Some(conn), accepts);
      o.result == Err(BadDestination(destination)) <==> ParseDestination(destination).None?
    ensures var o := ToTableSpec(tables, f, destination, Some(conn), accepts);
      ParseDestination(destination).None? ==> o.tables == tables && o.events == []
  {
  }

  /**
   * to_table succeeds exactly when it has a connection string and a valid
   * destination, the server takes the TRUNCATE of an existing table and the
   * timeout, and the table is new or has the
   * frame's columns, or the frame has no rows (then nothing is copied). Then the
   * table holds exactly the frame's rows, under its old columns when it existed
   * and under the frame's when it is new, and every other table is as before.
   */
  lemma ToTableResult(tables: map<TableId, Table>, f: Frame, destination: string, conn: string, accepts: string -> bool)
    requires WellFormed(f) && ParseDestination(destination).Some?
    ensures var id := ParseDestination(destination).value;
      var o := ToTableSpec(tables, f, destination, Some(conn), accepts);
      && (o.result.Ok? <==>
            && (id in tables ==> accepts(TruncateSql(id)))
            && accepts(TIMEOUT_SQL)
            && (id !in tables || tables[id].columns == f.names || f.height == 0))
      && (o.result.Ok? ==>
            o.tables == tables[id := Table(if id in tables then tables[id].columns else f.names, Rows(f))])
  {
    assert [] + Rows(f) == Rows(f);
    var id := ParseDestination(destination).value;
    var t := Table(f.names, []);
    assert tables[id := t][id := Table(f.names, Rows(f))] == tables[id := Table(f.names, Rows(f))];
  }

  /**
   * Loading the same frame twice leaves the same tables as loading it once. The
   * second load succeeds exactly when the server takes the TRUNCATE, which the
   * first load sends only when the table already existed.
   */
  lemma ToTableIdempotent(tables: map<TableId, Table>, f: Frame, destination: string, conn: string, accepts: string -> bool)
    requires WellFormed(f)
    requires ToTableSpec(tables, f, destination, Some(conn), accepts).result.Ok?
    ensures var once := ToTableSpec(tables, f, destination, Some(conn), accepts);
      var twice := ToTableSpec(once.tables, f, destination, Some(conn), accepts);
      && (twice.result.Ok? <==> accepts(TruncateSql(ParseDestination(destination).value)))
      && twice.tables == once.tables
  {
    ToTableResult(tables, f, destination, conn, accepts);
    var once := ToTableSpec(tables, f, destination, Some(conn), accepts);
    ToTableResult(once.tables, f, destination, conn, accepts);
    var id := ParseDestination(destination).value;
    assert once.tables[id := Table(once.tables[id].columns, Rows(f))] == once.tables;
  }

  /**
   * An existing table whose columns differ from the frame's is truncated before
   * the COPY fails: to_table raises and the table is left empty. A frame without
   * rows sends no COPY, so then to_table returns normally, and the table is still empty.
   * Only a refused TRUNCATE keeps the rows, and then to_table raises.
   */
  lemma MismatchedTableLosesRows(tables: map<TableId, Table>, f: Frame, destination: string, conn: string, accepts: string -> bool)
    requires WellFormed(f) && ParseDestination(destination).Some? && accepts(TIMEOUT_SQL)
    requires var id := ParseDestination(destination).value;
      id in tables && tables[id].columns != f.names
    ensures var id := ParseDestination(destination).value;
      var o := ToTableSpec(tables, f, destination, Some(conn), accepts);
      accepts(TruncateSql(id)) ==>
        && o.result == (if f.height == 0 then Ok(()) else Err(SchemaMismatch))
        && o.tables == tables[id := Table(tables[id].columns, [])]
    ensures var id := ParseDestination(destination).value;
      var o := ToTableSpec(tables, f, destination, Some(conn), accepts);
      !accepts(TruncateSql(id)) ==> o.result == Err(SqlFailed(TruncateSql(id))) && o.tables == tables
  {
  }

  /**
   * What to_table sends, in order: the existence probe on its own connection,
   * a TRUNCATE on another exactly when the table exists, then on a third the
   * timeout, the CREATE exactly when the table is new, and the COPY of the
   * frame's columns and rows exactly when it has rows, with no new connection
   * between the timeout and the copy.
   */
  lemma ToTableTrace(tables: map<TableId, Table>, f: Frame, destination: string, conn: string, accepts: string -> bool)
    requires WellFormed(f) && ParseDestination(destination).Some? && accepts(TIMEOUT_SQL)
    ensures var id := ParseDestination(destination).value;
      var o := ToTableSpec(tables, f, destination, Some(conn), accepts);
      var tail := [Connect, Statement(TIMEOUT_SQL)]
        + (if id in tables then [] else [Create(id, f.names)])
        + (if f.height > 0 then [Copy(CopySql(id, f.names), Rows(f))] else []);
      && o.events[..2] == [Connect, Probe(id)]
      && (Statement(TruncateSql(id)) in o.events <==> id in tables)
      && (id in tables && !accepts(TruncateSql(id)) ==>
            o.events == [Connect, Probe(id), Connect, Statement(TruncateSql(id))])
      && (id !in tables || accepts(TruncateSql(id)) ==>
            |o.events| >= 2 + |tail| && o.events[|o.events| - |tail|..] == tail)
      && Connect !in tail[1..]
  {
    var id := ParseDestination(destination).value;
    var present := id in tables;
    if present && !accepts(TruncateSql(id)) {
      var events := ToTableSpec(tables, f, destination, Some(conn), accepts).events;
      assert events == [Connect, Probe(id), Connect, Statement(TruncateSql(id))];
      assert events[3] == Statement(TruncateSql(id));
      assert [Connect, Statement(TIMEOUT_SQL)][1..] == [Statement(TIMEOUT_SQL)];
      return;
    }
    var probed := [Connect, Probe(id)] + (if present then [Connect, Statement(TruncateSql(id))] else []);
    var tail := [Connect, Statement(TIMEOUT_SQL)]
      + (if present then [] else [Create(id, f.names)])
      + (if f.height > 0 then [Copy(CopySql(id, f.names), Rows(f))] else []);
    ToTableEvents(tables, f, destination, conn, accepts);
    TruncateIsNotTimeout(id);
    TraceShape(ToTableSpec(tables, f, destination, Some(conn), accepts).events, probed, tail, id, TruncateSql(id), present);
  }

  lemma ToTableEvents(tables: map<TableId, Table>, f: Frame, destination: string, conn: string, accepts: string -> bool)
    requires WellFormed(f) && ParseDestination(destination).Some? && accepts(TIMEOUT_SQL)
    requires var id := ParseDestination(destination).value;
      id in tables ==> accepts(TruncateSql(id))
    ensures var id := ParseDestination(destination).value;
      ToTableSpec(tables, f, destination, Some(conn), accepts).events
        == ([Connect, Probe(id)] + (if id in tables then [Connect, Statement(TruncateSql(id))] else []))
           + ([Connect, Statement(TIMEOUT_SQL)]
              + (if id in tables then [] else [Create(id, f.names)])
              + (if f.height > 0 then [Copy(CopySql(id, f.names), Rows(f))] else []))
  {
  }

  /** The text that stands before the qualified name in the TRUNCATE statement. */
  const TRUNCATE_HEAD := "\n" + Repeat(' ', 12) + "TRUNCATE TABLE "

  /** The TRUNCATE statement cut after its head: the schema, then the rest. */
  lemma TruncateSqlShape(id: TableId)
    ensures |TRUNCATE_HEAD| <= |TruncateSql(id)|
    ensures TruncateSql(id)[|TRUNCATE_HEAD|..]
      == Quote(id.schema) + ("." + Quote(id.name) + (";\n" + Repeat(' ', 8)))
  {
    var t := TruncateSql(id);
    assert t == TRUNCATE_HEAD + (Quote(id.schema) + ("." + Quote(id.name) + (";\n" + Repeat(' ', 8))));
  }

  /**
   * For identifiers without '"', the TRUNCATE statement names exactly one table:
   * equal statements truncate the same table.
   */
  lemma TruncateSqlDeterminesTarget(id1: TableId, id2: TableId)
    requires QUOTE !in id1.schema && QUOTE !in id1.name
    requires QUOTE !in id2.schema && QUOTE !in id2.name
    requires TruncateSql(id1) == TruncateSql(id2)
    ensures id1 == id2
  {
    var tail := ";\n" + Repeat(' ', 8);
    TruncateSqlShape(id1);
    TruncateSqlShape(id2);
    QuotedPrefix(id1.schema, "." + Quote(id1.name) + tail, id2.schema, "." + Quote(id2.name) + tail);
    QualifiedTail(id1.name, tail, id2.name, tail);
  }

  lemma TruncateIsNotTimeout(id: TableId)
    ensures TruncateSql(id) != TIMEOUT_SQL
  {
    assert TIMEOUT_SQL[0] == 'S';
  }

  lemma TraceShape(events: seq<Event>, probed: seq<Event>, tail: seq<Event>, id: TableId, truncate: string, present: bool)
    requires probed == [Connect, Probe(id)] + (if present then [Connect, Statement(truncate)] else [])
    requires |tail| >= 2 && tail[0] == Connect && tail[1] != Statement(truncate)
    requires forall k :: 1 <= k < |tail| ==> tail[k].Statement? || tail[k].Create? || tail[k].Copy?
    requires forall k :: 2 <= k < |tail| ==> !tail[k].Statement?
    requires events == probed + tail
    ensures events[..2] == [Connect, Probe(id)]
    ensures |events| >= 2 + |tail|
    ensures events[|events| - |tail|..] == tail
    ensures Statement(truncate) in events <==> present
    ensures Connect !in tail[1..]
  {
    assert events[|events| - |tail|..] == tail;
    if present {
      assert events[3] == Statement(truncate);
    } else {
      assert events == [Connect, Probe(id)] + tail;
      assert Statement(truncate) !in tail;
    }
  }
}
