/**
 * The entries repository (daily_journal/repository.py): a SQLite table of
 * (date, entry) rows with a unique date, written by upsert, read by an
 * inclusive range of ISO date strings, every statement run inside a
 * commit-or-rollback wrapper.
 *
 * The SQLite database is modelled by the `Db` value a `Connection` holds: a
 * flag for "the table exists" and the table's rows. The table's `UNIQUE`
 * date column already keeps one row per date, so the extra unique index on
 * the same column changes nothing observable and has no flag of its own. What
 * SQLite does with each of the three statements is `Execute`; failures the
 * engine itself may report (disk, locking, constraint) come in as `fault`.
 */
module Repository {
  import opened Wrappers
  import opened Text
  import opened Dates
  import Model

  /** A row of the `entries` table; its surrogate `id` is never read and is not modelled. */
  datatype Record = Record(date: string, entry: string)

  datatype Db = Db(hasSchema: bool, rows: seq<Record>)

  /** `sqlite3.IntegrityError`, and every other `sqlite3` error, which the code treats alike. */
  datatype DbError = IntegrityError(message: string) | OperationalError(message: string)

  /** The three statements the repository sends, and the delete as it was meant to be written. */
  datatype Statement =
    | UpsertEntry(date: string, entry: string)  // INSERT ... ON CONFLICT(date) DO UPDATE SET entry = EXCLUDED.entry
    | SelectBetween(low: string, high: string)  // SELECT date, entry FROM entries WHERE date BETWEEN ? and ?
    | DeleteWithoutColumn(date: string)         // DELETE FROM entries WHERE = ?
    | DeleteWhereDate(date: string)             // DELETE FROM entries WHERE date = ?

  /** A statement's effect before commit or rollback: the new database and fetched rows, or an error. */
  datatype Exec = Executed(db: Db, fetched: seq<Record>) | Failed(error: DbError)

  /**
   * How a call through the commit/rollback wrapper ends: committed (with the
   * rows the cursor fetched), rolled back with the error logged and swallowed
   * (the Python method then returns None), or rolled back and re-raised.
   */
  datatype Outcome = Committed(fetched: seq<Record>) | Swallowed(error: DbError) | Raised(error: DbError)

  const SyntaxErrorNearEquals := "near \"=\": syntax error"
  const NoSuchTable := "no such table: entries"

  /** The `UNIQUE` date column and the unique index: at most one row per date. */
  predicate UniqueDates(rows: seq<Record>) {
    rows == [] || ((forall rec :: rec in rows[1..] ==> rec.date != rows[0].date) && UniqueDates(rows[1..]))
  }

  /** The invariant in its pairwise form: no two rows share a date. */
  lemma {:induction false} UniqueDatesPairwise(rows: seq<Record>)
    ensures UniqueDates(rows) <==> forall i, j :: 0 <= i < j < |rows| ==> rows[i].date != rows[j].date
  {
    if rows != [] {
      var tail := rows[1..];
      UniqueDatesPairwise(tail);
      if forall i, j :: 0 <= i < j < |rows| ==> rows[i].date != rows[j].date {
        forall rec | rec in tail ensures rec.date != rows[0].date {
          var k :| 0 <= k < |tail| && tail[k] == rec;
          assert rows[k + 1] == rec;
        }
        forall i, j | 0 <= i < j < |tail| ensures tail[i].date != tail[j].date {
          assert tail[i] == rows[i + 1] && tail[j] == rows[j + 1];
        }
      }
      if UniqueDates(rows) {
        forall i, j | 0 <= i < j < |rows| ensures rows[i].date != rows[j].date {
          assert rows[j] == tail[j - 1] && rows[j] in tail;
          if i > 0 {
            assert rows[i] == tail[i - 1];
          }
        }
      }
    }
  }

  predicate WellFormed(db: Db) {
    (db.hasSchema || db.rows == []) && UniqueDates(db.rows)
  }

  /** The table seen as a map from date string to entry text. */
  function Lookup(rows: seq<Record>, date: string): (r: Option<string>)
    ensures r.Some? ==> Record(date, r.value) in rows
    ensures r.None? ==> forall i :: 0 <= i < |rows| ==> rows[i].date != date
  {
    if rows == [] then None
    else if rows[0].date == date then Some(rows[0].entry)
    else Lookup(rows[1..], date)
  }

  lemma LookupUnique(rows: seq<Record>, rec: Record)
    requires UniqueDates(rows) && rec in rows
    ensures Lookup(rows, rec.date) == Some(rec.entry)
  {
    if rows[0] != rec {
      assert rec in rows[1..];
      LookupUnique(rows[1..], rec);
    }
  }

  /** `INSERT ... ON CONFLICT(date) DO UPDATE`: overwrite the row for `date`, or add one. */
  function Upsert(rows: seq<Record>, date: string, entry: string): (r: seq<Record>)
    ensures Record(date, entry) in r
    ensures forall rec :: rec in r ==> rec == Record(date, entry) || rec in rows
    ensures forall rec :: rec in rows && rec.date != date ==> rec in r
  {
    if rows == [] then [Record(date, entry)]
    else if rows[0].date == date then
      [Record(date, entry)] + rows[1..]
    else
      [rows[0]] + Upsert(rows[1..], date, entry)
  }

  /** With the unique index, the upsert overwrites in place: the old row for `date` is gone. */
  lemma {:induction false} UpsertKeepsDatesUnique(rows: seq<Record>, date: string, entry: string)
    requires UniqueDates(rows)
    ensures var r := Upsert(rows, date, entry);
      && UniqueDates(r)
      && forall rec :: rec in r <==> rec == Record(date, entry) || (rec in rows && rec.date != date)
  {
    var r := Upsert(rows, date, entry);
    if rows == [] {
      assert r[1..] == [];
    } else {
      var tail := rows[1..];
      assert forall rec :: rec in rows <==> rec == rows[0] || rec in tail by {
        assert rows == [rows[0]] + tail;
      }
      if rows[0].date == date {
        assert r[1..] == tail;
      } else {
        UpsertKeepsDatesUnique(tail, date, entry);
        assert r[1..] == Upsert(tail, date, entry);
      }
    }
  }

  /** Seen as a map, the upsert sets `date` to `entry` and leaves every other date as it was. */
  lemma {:induction false} UpsertLookup(rows: seq<Record>, date: string, entry: string)
    ensures var r := Upsert(rows, date, entry);
      && Lookup(r, date) == Some(entry)
      && (forall k :: k != date ==> Lookup(r, k) == Lookup(rows, k))
      && |r| == if Lookup(rows, date).Some? then |rows| else |rows| + 1
  {
    if rows != [] && rows[0].date != date {
      UpsertLookup(rows[1..], date, entry);
    }
  }

  /** `WHERE date BETWEEN low and high`: the rows whose date lies in the inclusive range, in no promised order. */
  function Between(rows: seq<Record>, low: string, high: string): (r: seq<Record>)
    ensures forall rec :: rec in r <==> rec in rows && LexLe(low, rec.date) && LexLe(rec.date, high)
  {
    if rows == [] then []
    else
      assert forall rec :: rec in rows <==> rec == rows[0] || rec in rows[1..] by {
        assert rows == [rows[0]] + rows[1..];
      }
      (if LexLe(low, rows[0].date) && LexLe(rows[0].date, high) then [rows[0]] else [])
        + Between(rows[1..], low, high)
  }

  /** A range query over a table with unique dates returns each date at most once. */
  lemma {:induction false} BetweenKeepsDatesUnique(rows: seq<Record>, low: string, high: string)
    requires UniqueDates(rows)
    ensures UniqueDates(Between(rows, low, high))
  {
    if rows != [] {
      var tail := rows[1..];
      BetweenKeepsDatesUnique(tail, low, high);
      var rest := Between(tail, low, high);
      if LexLe(low, rows[0].date) && LexLe(rows[0].date, high) {
        assert Between(rows, low, high)[1..] == rest;
      } else {
        assert Between(rows, low, high) == rest;
      }
    }
  }

  /** With at most one row per date, a one-key range holds at most one row. */
  lemma {:induction false} SingleKeyRange(rows: seq<Record>, key: string)
    requires UniqueDates(rows)
    ensures |Between(rows, key, key)| <= 1
  {
    if rows != [] {
      var tail := rows[1..];
      SingleKeyRange(tail, key);
      if LexLe(key, rows[0].date) && LexLe(rows[0].date, key) {
        LexLeAntisymmetric(rows[0].date, key);
        var rest := Between(tail, key, key);
        if rest != [] {
          assert rest[0] in rest;
          LexLeAntisymmetric(rest[0].date, key);
        }
      }
    }
  }

  /** `DELETE FROM entries WHERE date = ?`: drop the row for `date`, if there is one. */
  function Remove(rows: seq<Record>, date: string): (r: seq<Record>)
    ensures forall rec :: rec in r <==> rec in rows && rec.date != date
  {
    if rows == [] then []
    else
      assert forall rec :: rec in rows <==> rec == rows[0] || rec in rows[1..] by {
        assert rows == [rows[0]] + rows[1..];
      }
      (if rows[0].date == date then [] else [rows[0]]) + Remove(rows[1..], date)
  }

  /** Seen as a map, the delete unsets `date`, keeps every other date, and is a no-op when `date` is absent. */
  lemma {:induction false} RemoveLookup(rows: seq<Record>, date: string)
    ensures var r := Remove(rows, date);
      && Lookup(r, date) == None
      && (forall k :: k != date ==> Lookup(r, k) == Lookup(rows, k))
      && (Lookup(rows, date).None? ==> r == rows)
  {
    if rows != [] {
      var tail, r := rows[1..], Remove(rows, date);
      RemoveLookup(tail, date);
      if rows[0].date == date {
        assert r == Remove(tail, date);
      } else {
        assert r == [rows[0]] + Remove(tail, date);
        assert r[1..] == Remove(tail, date);
      }
    }
  }

  lemma {:induction false} RemoveKeepsDatesUnique(rows: seq<Record>, date: string)
    requires UniqueDates(rows)
    ensures UniqueDates(Remove(rows, date))
  {
    if rows != [] {
      var tail := rows[1..];
      RemoveKeepsDatesUnique(tail, date);
      var rest := Remove(tail, date);
      if rows[0].date == date {
        assert Remove(rows, date) == rest;
      } else {
        assert Remove(rows, date) == [rows[0]] + rest;
        assert Remove(rows, date)[1..] == rest;
        assert forall rec :: rec in rest ==> rec in tail;
      }
    }
  }

  /** Deleting a date that was not stored before a save undoes the save exactly. */
  lemma {:induction false} DeleteUndoesSave(rows: seq<Record>, key: string, entry: string)
    requires Lookup(rows, key).None?
    ensures Remove(Upsert(rows, key, entry), key) == rows
  {
    if rows != [] {
      DeleteUndoesSave(rows[1..], key, entry);
      assert rows == [rows[0]] + rows[1..];
    }
  }

  /** What SQLite does with a statement against the committed database. */
  function Execute(stmt: Statement, db: Db, fault: Option<DbError>): (ex: Exec)
    ensures stmt.DeleteWithoutColumn? ==> ex == Failed(OperationalError(SyntaxErrorNearEquals))
    ensures ex.Executed? ==> db.hasSchema && fault.None? && ex.db.hasSchema
    ensures stmt.SelectBetween? && ex.Executed? ==> ex.db == db
    ensures !stmt.SelectBetween? && ex.Executed? ==> ex.fetched == []
  {
    if stmt.DeleteWithoutColumn? then
      // `WHERE = ?` names no column: the statement does not even prepare
      Failed(OperationalError(SyntaxErrorNearEquals))
    else if !db.hasSchema then Failed(OperationalError(NoSuchTable))
    else if fault.Some? then Failed(fault.value)
    else if stmt.UpsertEntry? then Executed(db.(rows := Upsert(db.rows, stmt.date, stmt.entry)), [])
    else if stmt.DeleteWhereDate? then Executed(db.(rows := Remove(db.rows, stmt.date)), [])
    else Executed(db, Between(db.rows, stmt.low, stmt.high))
  }

  /** `CREATE TABLE IF NOT EXISTS`: the table, created empty when it is missing. */
  function EnsureSchema(db: Db): (r: Db)
    ensures r.hasSchema
    ensures db.hasSchema ==> r == db
    ensures WellFormed(db) ==> WellFormed(r)
  {
    if db.hasSchema then db else Db(true, [])
  }

  /** Initialising twice is initialising once. */
  lemma EnsureSchemaIdempotent(db: Db)
    ensures EnsureSchema(EnsureSchema(db)) == EnsureSchema(db)
  {
  }

  /** What the wrapper does with an error: swallow an `IntegrityError`, re-raise anything else. */
  function Rollback(error: DbError): (r: Outcome)
    ensures r.Swallowed? <==> error.IntegrityError?
    ensures r.Raised? <==> !error.IntegrityError?
    ensures r.error == error
  {
    if error.IntegrityError? then Swallowed(error) else Raised(error)
  }

  /** The open SQLite connection; `db` is what a new transaction sees. */
  class Connection {
    var db: Db

    constructor(db: Db)
      ensures this.db == db
    {
      this.db := db;
    }
  }

  /**
   * The commit-or-rollback discipline of `cursor_manager` (and of
   * `init_entries_table`): a statement that ran is committed; one that failed
   * leaves the committed database as it was.
   */
  method Settle(conn: Connection, ex: Exec) returns (r: Outcome)
    modifies conn
    ensures ex.Executed? ==> conn.db == ex.db && r == Committed(ex.fetched)
    ensures ex.Failed? ==> conn.db == old(conn.db) && r == Rollback(ex.error)
  {
    match ex {
      case Executed(db, fetched) =>
        conn.db := db;
        r := Committed(fetched);
      case Failed(error) =>
        r := Rollback(error);
    }
  }

  /**
   * `init_entries_table`: `CREATE TABLE IF NOT EXISTS`, then `CREATE UNIQUE INDEX
   * IF NOT EXISTS`, each of which may fail (`tableFault`, `indexFault`). The
   * sqlite3 module opens no transaction before DDL, so a created table is
   * already in effect when the index statement runs: a failure there leaves
   * the table in place, and the rollback has nothing to undo.
   */
  method InitEntriesTable(conn: Connection, tableFault: Option<DbError>, indexFault: Option<DbError>) returns (r: Outcome)
    modifies conn
    ensures tableFault.Some? ==> conn.db == old(conn.db) && r == Rollback(tableFault.value)
    ensures tableFault.None? ==> conn.db == EnsureSchema(old(conn.db))
    ensures tableFault.None? && indexFault.None? ==> r == Committed([])
    ensures tableFault.None? && indexFault.Some? ==> r == Rollback(indexFault.value)
  {
    if tableFault.Some? {
      r := Rollback(tableFault.value);
    } else {
      conn.db := EnsureSchema(conn.db);
      if indexFault.Some? {
        r := Rollback(indexFault.value);
      } else {
        r := Committed([]);
      }
    }
  }

  /** `format_date`: each date's ISO string, in input order; distinct dates give distinct strings. */
  function FormatDate(dates: seq<Date>): (keys: seq<string>)
    requires forall i :: 0 <= i < |dates| ==> dates[i].Valid()
    ensures |keys| == |dates|
    ensures forall i :: 0 <= i < |dates| ==> |keys[i]| == 10 && ParseIso(keys[i]) == Some(dates[i])
    ensures forall i, j :: 0 <= i < |dates| && 0 <= j < |dates| ==> (keys[i] == keys[j] <==> dates[i] == dates[j])
  {
    seq(|dates|, i requires 0 <= i < |dates| => IsoFormat(dates[i]))
  }

  class Entries {
    const conn: Connection

    ghost predicate Valid()
      reads this, conn
    {
      conn.db.hasSchema && UniqueDates(conn.db.rows) && AllDateKeys(conn.db.rows)
    }

    /** `Entries(db_conn)`: keeps the connection and initialises the table. */
    constructor(conn: Connection)
      requires WellFormed(conn.db) && AllDateKeys(conn.db.rows)
      modifies conn
      ensures this.conn == conn && Valid()
      ensures conn.db == EnsureSchema(old(conn.db))
    {
      this.conn := conn;
      new;
      var outcome := InitEntriesTable(conn, None, None);
    }

    /** `with self.cursor_manager() as cursor: cursor.execute(stmt)`. */
    method CursorManager(stmt: Statement, fault: Option<DbError>) returns (r: Outcome)
      requires Valid() && (stmt.UpsertEntry? ==> IsDateKey(stmt.date))
      modifies conn
      ensures Valid()
      ensures var ex := Execute(stmt, old(conn.db), fault);
        && (ex.Executed? ==> conn.db == ex.db && r == Committed(ex.fetched))
        && (ex.Failed? ==> conn.db == old(conn.db) && r == Rollback(ex.error))
    {
      var ex := Execute(stmt, conn.db, fault);
      if stmt.UpsertEntry? {
        UpsertKeepsDatesUnique(conn.db.rows, stmt.date, stmt.entry);
        SaveKeepsDateKeys(conn.db.rows, stmt.date, stmt.entry);
      } else if stmt.DeleteWhereDate? {
        RemoveKeepsDatesUnique(conn.db.rows, stmt.date);
        RemoveKeepsDateKeys(conn.db.rows, stmt.date);
      }
      r := Settle(conn, ex);
    }

    /** `save(day)`: upsert the day's entry under its ISO date. */
    method Save(day: Model.Day, fault: Option<DbError>) returns (r: Outcome)
      requires Valid() && day.date.Valid()
      modifies conn
      ensures Valid()
      ensures var key := IsoFormat(day.date);
        if fault.None? then
          && r == Committed([])
          && conn.db.rows == Upsert(old(conn.db.rows), key, day.entry)
          && Lookup(conn.db.rows, key) == Some(day.entry)
          && forall k :: k != key ==> Lookup(conn.db.rows, k) == Lookup(old(conn.db.rows), k)
        else conn.db == old(conn.db) && r == Rollback(fault.value)
    {
      var formattedDate := FormatDate([day.date])[0];
      r := CursorManager(UpsertEntry(formattedDate, day.entry), fault);
      UpsertLookup(old(conn.db.rows), formattedDate, day.entry);
    }

    /** `get_by_dates(start_date, end_date)`: the stored rows whose ISO date lies between the bounds. */
    method GetByDates(startDate: Date, endDate: Date, fault: Option<DbError>) returns (r: Outcome)
      requires Valid() && startDate.Valid() && endDate.Valid()
      modifies conn
      ensures Valid() && conn.db == old(conn.db)
      ensures fault.None? ==> r.Committed? && UniqueDates(r.fetched)
      ensures fault.None? ==> forall rec :: rec in r.fetched <==>
        rec in conn.db.rows && LexLe(IsoFormat(startDate), rec.date) && LexLe(rec.date, IsoFormat(endDate))
      ensures fault.None? ==> forall rec :: rec in r.fetched <==>
        rec in conn.db.rows && var d := ParseIso(rec.date); d.Some? && DateLe(startDate, d.value) && DateLe(d.value, endDate)
      ensures fault.Some? ==> r == Rollback(fault.value)
    {
      var formatted := FormatDate([startDate, endDate]);
      var fStartDate, fEndDate := formatted[0], formatted[1];
      r := CursorManager(SelectBetween(fStartDate, fEndDate), fault);
      BetweenKeepsDatesUnique(conn.db.rows, fStartDate, fEndDate);
      forall rec {
        RangeSelectsByDate(conn.db.rows, startDate, endDate, rec);
      }
    }

    /** `delete(day)` as written: its statement never prepares, so it rolls back and re-raises. */
    method Delete(day: Model.Day) returns (r: Outcome)
      requires Valid() && day.date.Valid()
      modifies conn
      ensures Valid() && conn.db == old(conn.db)
      ensures r == Raised(OperationalError(SyntaxErrorNearEquals))
    {
      var formattedDate := FormatDate([day.date])[0];
      r := CursorManager(DeleteWithoutColumn(formattedDate), None);
    }

    /**
     * `delete(day)` with the column named (`WHERE date = ?`): removes the day's
     * row and leaves every other date alone; a day with no row is a no-op.
     */
    method DeleteByDate(day: Model.Day, fault: Option<DbError>) returns (r: Outcome)
      requires Valid() && day.date.Valid()
      modifies conn
      ensures Valid()
      ensures var key := IsoFormat(day.date);
        if fault.None? then
          && r == Committed([])
          && conn.db.rows == Remove(old(conn.db.rows), key)
          && Lookup(conn.db.rows, key).None?
          && (forall k :: k != key ==> Lookup(conn.db.rows, k) == Lookup(old(conn.db.rows), k))
          && (Lookup(old(conn.db.rows), key).None? ==> conn.db == old(conn.db))
        else conn.db == old(conn.db) && r == Rollback(fault.value)
    {
      var formattedDate := FormatDate([day.date])[0];
      r := CursorManager(DeleteWhereDate(formattedDate), fault);
      RemoveLookup(old(conn.db.rows), formattedDate);
    }
  }

  /** A key as `save` writes it: the ISO string of a real date. */
  predicate IsDateKey(key: string) {
    ParseIso(key).Some? && IsoFormat(ParseIso(key).value) == key
  }

  predicate AllDateKeys(rows: seq<Record>) {
    forall i :: 0 <= i < |rows| ==> IsDateKey(rows[i].date)
  }

  /** Saving under a date key keeps every stored date a canonical ISO key. */
  lemma SaveKeepsDateKeys(rows: seq<Record>, key: string, entry: string)
    requires AllDateKeys(rows) && IsDateKey(key)
    ensures AllDateKeys(Upsert(rows, key, entry))
  {
    var r := Upsert(rows, key, entry);
    forall i | 0 <= i < |r| ensures IsDateKey(r[i].date) {
      assert r[i] in r;
      if r[i] != Record(key, entry) {
        var j :| 0 <= j < |rows| && rows[j] == r[i];
      }
    }
  }

  /** The corrected delete keeps every stored date a canonical ISO key. */
  lemma RemoveKeepsDateKeys(rows: seq<Record>, date: string)
    requires AllDateKeys(rows)
    ensures AllDateKeys(Remove(rows, date))
  {
    var r := Remove(rows, date);
    forall i | 0 <= i < |r| ensures IsDateKey(r[i].date) {
      assert r[i] in r;
      var j :| 0 <= j < |rows| && rows[j] == r[i];
    }
  }

  /** The string range selects exactly the rows whose dates lie chronologically between the bounds. */
  lemma RangeSelectsByDate(rows: seq<Record>, a: Date, b: Date, rec: Record)
    requires AllDateKeys(rows) && a.Valid() && b.Valid()
    ensures rec in Between(rows, IsoFormat(a), IsoFormat(b)) <==>
      rec in rows && var d := ParseIso(rec.date).value; DateLe(a, d) && DateLe(d, b)
  {
    if rec in rows {
      var i :| 0 <= i < |rows| && rows[i] == rec;
      assert IsDateKey(rec.date);
      var d := ParseIso(rec.date).value;
      IsoOrderIsDateOrder(a, d);
      IsoOrderIsDateOrder(d, b);
    }
  }

  /** Reversed bounds select nothing; they are not an error. */
  lemma ReversedRangeIsEmpty(rows: seq<Record>, a: Date, b: Date)
    requires a.Valid() && b.Valid() && !DateLe(a, b)
    ensures Between(rows, IsoFormat(a), IsoFormat(b)) == []
  {
    var r := Between(rows, IsoFormat(a), IsoFormat(b));
    if r != [] {
      assert r[0] in r;
      LexLeTransitive(IsoFormat(a), r[0].date, IsoFormat(b));
      IsoOrderIsDateOrder(a, b);
    }
  }

  /** After saving `entry` under `key`, the range `key..key` reads back exactly that one row. */
  lemma SaveThenReadBack(rows: seq<Record>, key: string, entry: string)
    requires UniqueDates(rows)
    ensures Between(Upsert(rows, key, entry), key, key) == [Record(key, entry)]
  {
    var saved := Upsert(rows, key, entry);
    var r := Between(saved, key, key);
    UpsertKeepsDatesUnique(rows, key, entry);
    assert LexLe(key, key) by { LexLeTotal(key, key); }
    assert Record(key, entry) in r;
    SingleKeyRange(saved, key);
    assert r == [r[0]];
  }

  /** Saving twice for one date is saving the second text once: an overwrite, not a second row. */
  lemma {:induction false} SaveTwiceKeepsLast(rows: seq<Record>, key: string, first: string, second: string)
    ensures Upsert(Upsert(rows, key, first), key, second) == Upsert(rows, key, second)
  {
    if rows != [] && rows[0].date != key {
      SaveTwiceKeepsLast(rows[1..], key, first, second);
    }
  }

  /** Two saves for one key leave exactly one row for it, holding the second text. */
  lemma SaveTwiceLeavesOneRow(rows: seq<Record>, key: string, first: string, second: string)
    requires UniqueDates(rows)
    ensures Between(Upsert(Upsert(rows, key, first), key, second), key, key) == [Record(key, second)]
  {
    SaveTwiceKeepsLast(rows, key, first, second);
    SaveThenReadBack(rows, key, second);
  }

  /**
   * The delete as written cannot remove a saved entry: after a save the row is
   * there, the statement fails to prepare, and the row stays; the statement with
   * the column named removes it.
   */
  lemma DeleteAsWrittenKeepsRow(db: Db, key: string, entry: string)
    requires db.hasSchema
    ensures var saved := db.(rows := Upsert(db.rows, key, entry));
      && Lookup(saved.rows, key) == Some(entry)
      && Execute(DeleteWithoutColumn(key), saved, None) == Failed(OperationalError(SyntaxErrorNearEquals))
      && Execute(DeleteWhereDate(key), saved, None).Executed?
      && Lookup(Execute(DeleteWhereDate(key), saved, None).db.rows, key) == None
  {
    UpsertLookup(db.rows, key, entry);
    RemoveLookup(Upsert(db.rows, key, entry), key);
  }
}
