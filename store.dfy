/**
 * The PostgreSQL server as the loader sees it: named tables of rows, and a
 * log of what each connection sent it. SQL the model does not interpret is
 * accepted or refused by a fixed verdict the database is built with.
 */
module Store {
  import opened Wrappers
  import opened Frames

  datatype TableId = TableId(schema: string, name: string)

  datatype Table = Table(columns: seq<string>, rows: seq<seq<Value>>)

  datatype Event =
    | Connect                                  // engine.connect(): a new connection
    | Probe(id: TableId)                       // the information_schema query of _table_exists
    | Statement(sql: string)                   // conn.execute(sql)
    | Create(id: TableId, columns: seq<string>) // the CREATE TABLE pandas issues
    | Copy(sql: string, rows: seq<seq<Value>>)  // cur.copy_expert(sql, csv of rows)

  /** What a sequence of requests did: the tables after it, what was sent, and what it returned. */
  datatype Outcome = Outcome(tables: map<TableId, Table>, events: seq<Event>, result: Result<()>)

  /** The tables after `rows` are copied into `id` through `columns`: COPY fails unless they are the table's. */
  function CopySpec(tables: map<TableId, Table>, id: TableId, columns: seq<string>, rows: seq<seq<Value>>)
    : (r: (map<TableId, Table>, Result<()>))
    ensures r.1.Ok? <==> id in tables && tables[id].columns == columns
    ensures r.1.Ok? ==> r.0 == tables[id := Table(columns, tables[id].rows + rows)]
    ensures r.1.Err? ==> r.0 == tables && r.1.error == SchemaMismatch
  {
    if id in tables && tables[id].columns == columns then
      (tables[id := Table(columns, tables[id].rows + rows)], Ok(()))
    else
      (tables, Err(SchemaMismatch))
  }

  class Database {
    var tables: map<TableId, Table>
    var log: seq<Event>
    /** Whether the server accepts a statement whose effect the model leaves out. */
    const accepts: string -> bool

    constructor (initial: map<TableId, Table>, verdict: string -> bool)
      ensures tables == initial && log == [] && accepts == verdict
    {
      tables, log, accepts := initial, [], verdict;
    }

    /** Open a connection. */
    method Open()
      modifies this
      ensures tables == old(tables) && log == old(log) + [Connect]
    {
      log := log + [Connect];
    }

    /** Ask information_schema whether the table is there; the answer's row count is 1 or 0. */
    method TableExists(id: TableId) returns (found: bool)
      modifies this
      ensures found <==> id in tables
      ensures tables == old(tables) && log == old(log) + [Probe(id)]
    {
      log := log + [Probe(id)];
      found := id in tables;
    }

    /**
     * `sql`, a TRUNCATE of `id`: when the server takes it, every row is deleted
     * and the columns are kept; when it refuses it (say, to a role that does
     * not own the table), nothing changes and the call raises.
     */
    method Truncate(id: TableId, sql: string) returns (r: Result<()>)
      requires id in tables
      modifies this
      ensures r == if accepts(sql) then Ok(()) else Err(SqlFailed(sql))
      ensures tables == if accepts(sql) then old(tables)[id := Table(old(tables)[id].columns, [])] else old(tables)
      ensures log == old(log) + [Statement(sql)]
    {
      log := log + [Statement(sql)];
      if accepts(sql) {
        tables := tables[id := Table(tables[id].columns, [])];
        r := Ok(());
      } else {
        r := Err(SqlFailed(sql));
      }
    }

    /** A statement the model does not interpret: logged, then accepted or refused. */
    method Execute(sql: string) returns (r: Result<()>)
      modifies this
      ensures r == if accepts(sql) then Ok(()) else Err(SqlFailed(sql))
      ensures tables == old(tables) && log == old(log) + [Statement(sql)]
    {
      log := log + [Statement(sql)];
      r := if accepts(sql) then Ok(()) else Err(SqlFailed(sql));
    }

    /** Create an empty table. */
    method CreateTable(id: TableId, columns: seq<string>)
      requires id !in tables
      modifies this
      ensures tables == old(tables)[id := Table(columns, [])]
      ensures log == old(log) + [Create(id, columns)]
    {
      tables := tables[id := Table(columns, [])];
      log := log + [Create(id, columns)];
    }

    /** `sql`, a COPY into `id` of `columns`, appends `rows` when the columns are the table's. */
    method CopyFrom(id: TableId, columns: seq<string>, sql: string, rows: seq<seq<Value>>) returns (r: Result<()>)
      modifies this
      ensures (tables, r) == CopySpec(old(tables), id, columns, rows)
      ensures log == old(log) + [Copy(sql, rows)]
    {
      log := log + [Copy(sql, rows)];
      if id in tables && tables[id].columns == columns {
        tables := tables[id := Table(columns, tables[id].rows + rows)];
        r := Ok(());
      } else {
        r := Err(SchemaMismatch);
      }
    }
  }
}
