/**
  The relational store and the session that `insert_into_database` drives:
  bulk insert, commit, rollback, bulk update, close.  A table maps each
  record's key to the record; a bulk statement is all-or-nothing.
 */
module Database {
  import opened Wrappers
  import opened Calendar
  import opened Frames

  /** The ORM classes the pipeline hands to `save_to_dir`. */
  datatype Mapper = Legacy | DisaggregatedFuturesOptions

  /** One entry of `df.to_dict(orient="records")`: the date and a value per column name. */
  datatype Record = Record(date: Day, values: map<string, Cell>)

  /** The identity of a report row: its date, market code and report type. */
  datatype Key = Key(date: Day, marketCode: Option<Cell>, reportType: Option<Cell>)

  type Table = map<Key, Record>

  /** What became of one batch. */
  datatype BatchResult = Inserted | Updated | Failed

  function Lookup(m: map<string, Cell>, name: string): Option<Cell> {
    if name in m then Some(m[name]) else None
  }

  function KeyOf(r: Record): Key {
    Key(r.date, Lookup(r.values, "Market_Code"), Lookup(r.values, "Report_Type"))
  }

  /** One row as a dict: a later cell of a repeated column name overwrites an earlier one. */
  function ToValues(columns: seq<string>, cells: seq<Cell>): (m: map<string, Cell>)
    requires |columns| == |cells|
    ensures forall n :: n in m <==> n in columns
    decreases |columns|
  {
    if columns == [] then map[]
    else map[columns[0] := cells[0]] + ToValues(columns[1..], cells[1..])
  }

  /** A column name not repeated further right maps to its own cell. */
  lemma {:induction false} ToValuesAt(columns: seq<string>, cells: seq<Cell>, k: nat)
    requires |columns| == |cells| && k < |columns|
    requires forall j :: k < j < |columns| ==> columns[j] != columns[k]
    ensures columns[k] in ToValues(columns, cells) && ToValues(columns, cells)[columns[k]] == cells[k]
    decreases k
  {
    var rest := ToValues(columns[1..], cells[1..]);
    if k == 0 {
      assert columns[0] !in columns[1..] by {
        forall j | 0 <= j < |columns| - 1 ensures columns[1..][j] != columns[0] {
          assert columns[1..][j] == columns[j + 1];
        }
      }
    } else {
      forall j | k - 1 < j < |columns| - 1 ensures columns[1..][j] != columns[1..][k - 1] {
        assert columns[1..][j] == columns[j + 1];
      }
      ToValuesAt(columns[1..], cells[1..], k - 1);
      assert columns[1..][k - 1] == columns[k] && cells[1..][k - 1] == cells[k];
    }
  }

  /** `df.to_dict(orient="records")`: one record per row, in row order. */
  function Records(f: Frame): (r: seq<Record>)
    requires WellFormed(f)
    ensures |r| == |f.rows|
    ensures forall i :: 0 <= i < |r| ==> r[i].date == f.rows[i].date
    ensures forall i, n :: 0 <= i < |r| ==> (n in r[i].values <==> n in f.columns)
  {
    assert forall i :: 0 <= i < |f.rows| ==> f.rows[i] in f.rows;
    seq(|f.rows|, i requires 0 <= i < |f.rows| => Record(f.rows[i].date, ToValues(f.columns, f.rows[i].cells)))
  }

  function KeySet(batch: seq<Record>): set<Key> {
    set i | 0 <= i < |batch| :: KeyOf(batch[i])
  }

  predicate DistinctKeys(batch: seq<Record>) {
    forall i, j :: 0 <= i < j < |batch| ==> KeyOf(batch[i]) != KeyOf(batch[j])
  }

  /** A bulk insert goes through when no key repeats and none is already stored. */
  predicate CanInsert(t: Table, batch: seq<Record>) {
    DistinctKeys(batch) && forall i :: 0 <= i < |batch| ==> KeyOf(batch[i]) !in t
  }

  /** A bulk update goes through when every key is already stored. */
  predicate CanUpdate(t: Table, batch: seq<Record>) {
    forall i :: 0 <= i < |batch| ==> KeyOf(batch[i]) in t
  }

  /** The batch written into the table in order: a later record of the same key wins. */
  function WriteBatch(t: Table, batch: seq<Record>): (r: Table)
    ensures r.Keys == t.Keys + KeySet(batch)
    ensures forall k :: k in t && k !in KeySet(batch) ==> r[k] == t[k]
    decreases |batch|
  {
    if batch == [] then t
    else
      var rest := WriteBatch(t[KeyOf(batch[0]) := batch[0]], batch[1..]);
      assert KeySet(batch) == {KeyOf(batch[0])} + KeySet(batch[1..]) by {
        forall k | k in KeySet(batch) ensures k in {KeyOf(batch[0])} + KeySet(batch[1..]) {
          var i :| 0 <= i < |batch| && KeyOf(batch[i]) == k;
          if i > 0 {
            assert KeyOf(batch[1..][i - 1]) == k;
          }
        }
        forall k | k in KeySet(batch[1..]) ensures k in KeySet(batch) {
          var i :| 0 <= i < |batch[1..]| && KeyOf(batch[1..][i]) == k;
          assert KeyOf(batch[i + 1]) == k;
        }
      }
      rest
  }

  /**
    The reference semantics of one `insert_into_database` call on a table:
    insert if possible, otherwise update if possible, otherwise nothing.
   */
  function Upsert(t: Table, batch: seq<Record>): (r: (BatchResult, Table))
    ensures r.0 == Inserted <==> CanInsert(t, batch)
    ensures r.0 == Failed <==> !CanInsert(t, batch) && !CanUpdate(t, batch)
    ensures r.0 == Failed ==> r.1 == t
    ensures r.0 != Failed ==> r.1.Keys == t.Keys + KeySet(batch)
  {
    if CanInsert(t, batch) then (Inserted, WriteBatch(t, batch))
    else if CanUpdate(t, batch) then (Updated, WriteBatch(t, batch))
    else (Failed, t)
  }

  /** Writing a batch is the table overridden by the batch on its own. */
  lemma {:induction false} WriteBatchOverride(t: Table, batch: seq<Record>)
    ensures WriteBatch(t, batch) == t + WriteBatch(map[], batch)
    decreases |batch|
  {
    if batch != [] {
      var k, b := KeyOf(batch[0]), batch[0];
      WriteBatchOverride(t[k := b], batch[1..]);
      WriteBatchOverride(map[k := b], batch[1..]);
      var m := WriteBatch(map[], batch[1..]);
      assert map[][k := b] == map[k := b];
      var lhs, rhs := t[k := b] + m, t + (map[k := b] + m);
      assert lhs.Keys == rhs.Keys;
      forall x | x in lhs ensures lhs[x] == rhs[x] {
      }
      assert lhs == rhs;
    }
  }

  /** Writing the same batch twice leaves the table as writing it once. */
  lemma WriteBatchTwice(t: Table, batch: seq<Record>)
    ensures WriteBatch(WriteBatch(t, batch), batch) == WriteBatch(t, batch)
  {
    var m := WriteBatch(map[], batch);
    WriteBatchOverride(t, batch);
    WriteBatchOverride(t + m, batch);
    assert (t + m) + m == t + m;
  }

  /** With distinct keys, every record of the batch is what its key holds afterwards. */
  lemma {:induction false} WriteBatchStores(t: Table, batch: seq<Record>)
    requires DistinctKeys(batch)
    ensures forall i :: 0 <= i < |batch| ==> WriteBatch(t, batch)[KeyOf(batch[i])] == batch[i]
    decreases |batch|
  {
    if batch != [] {
      var t' := t[KeyOf(batch[0]) := batch[0]];
      WriteBatchStores(t', batch[1..]);
      assert KeyOf(batch[0]) !in KeySet(batch[1..]) by {
        forall i | 0 <= i < |batch| - 1 ensures KeyOf(batch[1..][i]) != KeyOf(batch[0]) {
          assert batch[1..][i] == batch[i + 1];
        }
      }
      forall i | 0 <= i < |batch| ensures WriteBatch(t, batch)[KeyOf(batch[i])] == batch[i] {
        if i > 0 {
          assert batch[i] == batch[1..][i - 1];
        }
      }
    }
  }

  /**
    A batch either lands whole or not at all: an insert adds exactly the
    batch's keys and stores every record, an update adds no key, and a
    failure leaves the table as it was.  No stored row is ever lost.
   */
  lemma UpsertOutcome(t: Table, batch: seq<Record>)
    ensures t.Keys <= Upsert(t, batch).1.Keys
    ensures Upsert(t, batch).0 == Inserted ==>
      Upsert(t, batch).1.Keys == t.Keys + KeySet(batch) && t.Keys !! KeySet(batch) &&
      forall i :: 0 <= i < |batch| ==> Upsert(t, batch).1[KeyOf(batch[i])] == batch[i]
    ensures Upsert(t, batch).0 == Updated ==> Upsert(t, batch).1.Keys == t.Keys
    ensures Upsert(t, batch).0 == Updated && DistinctKeys(batch) ==>
      forall i :: 0 <= i < |batch| ==> Upsert(t, batch).1[KeyOf(batch[i])] == batch[i]
    ensures Upsert(t, batch).0 == Failed ==> Upsert(t, batch).1 == t
  {
    if DistinctKeys(batch) {
      WriteBatchStores(t, batch);
    }
  }

  /**
    Re-running the same non-empty batch after it was inserted takes the
    update path and leaves the table, and so its row count, unchanged.
   */
  lemma UpsertTwice(t: Table, batch: seq<Record>)
    requires batch != []
    requires Upsert(t, batch).0 == Inserted
    ensures Upsert(Upsert(t, batch).1, batch) == (Updated, Upsert(t, batch).1)
  {
    var t1 := WriteBatch(t, batch);
    assert KeyOf(batch[0]) in KeySet(batch);
    assert !CanInsert(t1, batch);
    assert CanUpdate(t1, batch) by {
      forall i | 0 <= i < |batch| ensures KeyOf(batch[i]) in t1 {
        assert KeyOf(batch[i]) in KeySet(batch);
      }
    }
    WriteBatchTwice(t, batch);
  }

  /** The table of one mapper; a table never written to is empty. */
  function TableIn(tables: map<Mapper, Table>, m: Mapper): Table {
    if m in tables then tables[m] else map[]
  }

  /** The database: one table per mapper, and a count of the sessions left open. */
  class Store {
    var tables: map<Mapper, Table>
    var openSessions: int

    constructor (tables: map<Mapper, Table>)
      ensures this.tables == tables && openSessions == 0
    {
      this.tables := tables;
      openSessions := 0;
    }
  }

  /**
    A session: the transaction's view of the tables (`work`), whether a
    statement of the transaction has failed, and whether it is open.
   */
  class Session {
    const store: Store
    var work: map<Mapper, Table>
    var failed: bool
    var isOpen: bool

    /** `db_engine()`: a new session sees the committed tables. */
    constructor (store: Store)
      modifies store
      ensures this.store == store && work == old(store.tables) && !failed && isOpen
      ensures store.tables == old(store.tables) && store.openSessions == old(store.openSessions) + 1
    {
      this.store := store;
      work := store.tables;
      failed := false;
      isOpen := true;
      new;
      store.openSessions := store.openSessions + 1;
    }

    /** `bulk_insert_mappings`: all records are added, or the statement fails and nothing is. */
    method BulkInsertMappings(m: Mapper, batch: seq<Record>) returns (ok: bool)
      requires isOpen && !failed
      modifies this
      ensures isOpen
      ensures ok == CanInsert(TableIn(old(work), m), batch)
      ensures ok ==> work == old(work)[m := WriteBatch(TableIn(old(work), m), batch)] && !failed
      ensures !ok ==> work == old(work) && failed
    {
      ok := CanInsert(TableIn(work, m), batch);
      if ok {
        work := work[m := WriteBatch(TableIn(work, m), batch)];
      } else {
        failed := true;
      }
    }

    /** `bulk_update_mappings`: all records replace their stored rows, or the statement fails and nothing changes. */
    method BulkUpdateMappings(m: Mapper, batch: seq<Record>) returns (ok: bool)
      requires isOpen && !failed
      modifies this
      ensures isOpen
      ensures ok == CanUpdate(TableIn(old(work), m), batch)
      ensures ok ==> work == old(work)[m := WriteBatch(TableIn(old(work), m), batch)] && !failed
      ensures !ok ==> work == old(work) && failed
    {
      ok := CanUpdate(TableIn(work, m), batch);
      if ok {
        work := work[m := WriteBatch(TableIn(work, m), batch)];
      } else {
        failed := true;
      }
    }

    /** `commit`: the transaction's view becomes the stored tables. */
    method Commit()
      requires isOpen && !failed
      modifies store
      ensures store.tables == work && store.openSessions == old(store.openSessions)
    {
      store.tables := work;
    }

    /** `rollback`: the view returns to the stored tables and the session is usable again. */
    method Rollback()
      requires isOpen
      modifies this
      ensures isOpen && !failed && work == store.tables
    {
      work := store.tables;
      failed := false;
    }

    /** `close`: uncommitted work is discarded and the session is released. */
    method Close()
      requires isOpen
      modifies this, store
      ensures !isOpen && work == store.tables
      ensures store.tables == old(store.tables) && store.openSessions == old(store.openSessions) - 1
    {
      isOpen := false;
      work := store.tables;
      store.openSessions := store.openSessions - 1;
    }
  }

  /**
    `insert_into_database(mapper, data)`.  `engineAvailable` is whether
    `connect_to_database` can build the engine; when it cannot, its
    ConnectionError is raised before the `try` and escapes.  Otherwise the
    session tries a bulk insert and commits; on failure it rolls back and
    tries a bulk update; a second failure is only reported.  The session is
    closed on every path.
   */
  method InsertIntoDatabase(store: Store, mapper: Mapper, data: seq<Record>, engineAvailable: bool)
    returns (r: Result<BatchResult, Error>)
    modifies store
    ensures !engineAvailable ==> r == Err(ConnectionError) && store.tables == old(store.tables)
    ensures engineAvailable ==> r == Ok(Upsert(TableIn(old(store.tables), mapper), data).0)
    ensures r == Ok(Inserted) || r == Ok(Updated) ==>
      store.tables == old(store.tables)[mapper := Upsert(TableIn(old(store.tables), mapper), data).1]
    ensures r == Ok(Failed) ==> store.tables == old(store.tables)
    ensures store.openSessions == old(store.openSessions)
  {
    if !engineAvailable {
      return Err(ConnectionError);
    }
    var ssn := new Session(store);
    var inserted := ssn.BulkInsertMappings(mapper, data);
    if inserted {
      ssn.Commit();
      r := Ok(Inserted);
    } else {
      ssn.Rollback();
      var updated := ssn.BulkUpdateMappings(mapper, data);
      if updated {
        ssn.Commit();
        r := Ok(Updated);
      } else {
        r := Ok(Failed);
      }
    }
    ssn.Close();
  }
}
