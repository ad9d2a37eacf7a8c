/** The SQLite table `backups` in `metadata.db`, seen as an append-only
    sequence of rows: the script only ever runs `CREATE TABLE IF NOT
    EXISTS` and `INSERT`, so rows are never changed or removed. */
module MetadataStore {
  import opened Types

  /** The `status` column: the script writes only "OK" and "FAILED". */
  datatype Status = OK | FAILED

  /** The columns one `INSERT` supplies (all but `id`); `checksum` and
      `notes` are nullable. */
  datatype Backup = Backup(dbType: string, filePath: string, checksum: Option<string>,
                           sizeBytes: int, status: Status, createdAt: string,
                           durationSeconds: real, notes: Option<string>)

  /** A stored row: the INSERTed values and the rowid SQLite assigned. */
  datatype Row = Row(id: int, backup: Backup)

  /** `id INTEGER PRIMARY KEY`: no two rows share an id. */
  ghost predicate DistinctIds(rows: seq<Row>) {
    forall i, j :: 0 <= i < j < |rows| ==> rows[i].id != rows[j].id
  }

  /** The largest id in use. */
  function MaxId(rows: seq<Row>): (m: int)
    requires rows != []
    ensures forall i :: 0 <= i < |rows| ==> rows[i].id <= m
    ensures exists i :: 0 <= i < |rows| && rows[i].id == m
  {
    if |rows| == 1 then rows[0].id
    else
      var rest := MaxId(rows[1..]);
      if rows[0].id > rest then rows[0].id else rest
  }

  /** The rowid SQLite gives a row inserted without an explicit id: 1 in an
      empty table, otherwise one more than the largest rowid in use. */
  function NextRowId(rows: seq<Row>): (id: int)
    ensures forall i :: 0 <= i < |rows| ==> rows[i].id < id
    ensures rows == [] ==> id == 1
    ensures rows != [] ==> exists i :: 0 <= i < |rows| && rows[i].id == id - 1
  {
    if rows == [] then 1 else MaxId(rows) + 1
  }

  /** Appending a row under the next rowid keeps the primary key unique. */
  lemma InsertKeepsIdsDistinct(rows: seq<Row>, b: Backup)
    requires DistinctIds(rows)
    ensures DistinctIds(rows + [Row(NextRowId(rows), b)])
  {
  }

  /** What a record says about its attempt: an OK row carries a checksum
      and no notes; a FAILED row carries no checksum, size 0, duration 0.0
      and a note. */
  predicate Consistent(b: Backup) {
    (b.status == OK ==> b.checksum.Some? && b.notes.None?)
    && (b.status == FAILED ==>
          b.checksum.None? && b.sizeBytes == 0 && b.durationSeconds == 0.0 && b.notes.Some?)
  }

  /** The connection `conn` to `metadata.db`, restricted to the `backups`
      table: whether the table exists, and its rows in insertion order. */
  class BackupsTable {
    var tableExists: bool
    var rows: seq<Row>

    ghost predicate Valid()
      reads this
    {
      DistinctIds(rows) && (!tableExists ==> rows == [])
    }

    /** `sqlite3.connect(METADB)` on a database file that may already hold
        the table and earlier rows. */
    constructor Connect(tableExists: bool, rows: seq<Row>)
      requires DistinctIds(rows) && (tableExists || rows == [])
      ensures Valid() && this.tableExists == tableExists && this.rows == rows
    {
      this.tableExists := tableExists;
      this.rows := rows;
    }

    /** `CREATE TABLE IF NOT EXISTS backups (...)` and `commit`: afterwards
        the table exists, and rows already there are left as they were, so
        running it again changes nothing. */
    method CreateTableIfNotExists()
      requires Valid()
      modifies this
      ensures Valid() && tableExists && rows == old(rows)
    {
      if !tableExists {
        tableExists := true;
        rows := [];
      }
    }

    /** `INSERT INTO backups(...) VALUES (...)` and `commit`: exactly one
        row is appended under a fresh rowid; earlier rows are untouched. */
    method Insert(b: Backup) returns (id: int)
      requires Valid() && tableExists
      modifies this
      ensures Valid() && tableExists
      ensures id == NextRowId(old(rows)) && rows == old(rows) + [Row(id, b)]
      ensures forall i :: 0 <= i < |old(rows)| ==> old(rows)[i].id < id
    {
      id := NextRowId(rows);
      InsertKeepsIdsDistinct(rows, b);
      rows := rows + [Row(id, b)];
    }
  }
}
