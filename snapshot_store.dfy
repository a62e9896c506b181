/**
 * `DoctrineSnapshotAdapter`: the snapshot store for event-sourced aggregates,
 * over an abstract relational store.
 *
 * `save` inserts one row into the aggregate type's table and then deletes
 * the rows of the same aggregate with a lower version; `get` reads the row of
 * the aggregate with the highest version and rebuilds the snapshot from it.
 * The table is resolved by `TableNames.GetTable` from the type's string form
 * and the adapter's immutable table map.
 */
module SnapshotStore {
  import opened Wrappers
  import opened TableNames
  import opened Rows

  /** The errors the adapter lets through. */
  datatype StoreError =
    | NoSuchTable(table: string)  // the data store rejects a statement on a table it does not have
    | CorruptPayload              // the stored payload does not unserialize into an aggregate root

  /** prooph's `Snapshot` value object, in its constructor's argument order. */
  datatype Snapshot<Root> = Snapshot(
    aggregateType: string,
    aggregateId: string,
    aggregateRoot: Root,
    lastVersion: int,
    createdAt: string)

  /**
   * The relational store behind the adapter's connection: named tables of
   * rows, and the three statements the adapter runs on them. A statement on a
   * table the store does not have fails and changes nothing.
   */
  class Database {
    var tables: map<string, seq<Row>>

    constructor (tables: map<string, seq<Row>>)
      ensures this.tables == tables
    {
      this.tables := tables;
    }

    /** `INSERT INTO table ...`: appends the row. */
    method Insert(table: string, x: Row) returns (r: Outcome<StoreError>)
      modifies this
      ensures table in old(tables) ==> r == Pass && tables == old(tables)[table := old(tables)[table] + [x]]
      ensures table !in old(tables) ==> r == Fail(NoSuchTable(table)) && tables == old(tables)
    {
      if table in tables {
        tables := tables[table := tables[table] + [x]];
        r := Pass;
      } else {
        r := Fail(NoSuchTable(table));
      }
    }

    /** `DELETE FROM table WHERE aggregate_type = t AND aggregate_id = id AND last_version < v`. */
    method DeleteStale(table: string, t: string, id: string, v: int) returns (r: Outcome<StoreError>)
      modifies this
      ensures table in old(tables) ==> r == Pass && tables == old(tables)[table := Prune(old(tables)[table], t, id, v)]
      ensures table !in old(tables) ==> r == Fail(NoSuchTable(table)) && tables == old(tables)
    {
      if table in tables {
        tables := tables[table := Prune(tables[table], t, id, v)];
        r := Pass;
      } else {
        r := Fail(NoSuchTable(table));
      }
    }

    /**
     * `SELECT * FROM table WHERE aggregate_type = t AND aggregate_id = id
     * ORDER BY last_version DESC LIMIT 1`: no row exactly when the aggregate
     * has none, otherwise one of its rows with the highest version.
     */
    function SelectLatest(table: string, t: string, id: string): (r: Result<Option<Row>, StoreError>)
      reads this
      ensures table !in tables <==> r == Failure(NoSuchTable(table))
      ensures r.Failure? ==> r.error == NoSuchTable(table)
      ensures r.Success? ==> table in tables
      ensures r.Success? ==> (r.value.None? <==> forall x :: x in tables[table] ==> !Matches(x, t, id))
      ensures r.Success? && r.value.Some? ==> IsLatest(tables[table], t, id, r.value.value)
    {
      if table in tables then Success(Latest(tables[table], t, id)) else Failure(NoSuchTable(table))
    }
  }

  /**
   * The adapter. It holds the shared connection and the table map, both fixed
   * at construction, and the serializer pair for aggregate roots (PHP's
   * `serialize` and `unserialize`, which this model does not define).
   */
  class DoctrineSnapshotAdapter<Root> {
    const connection: Database
    const snapshotTableMap: map<string, string>
    const serialize: Root -> Bytes
    const unserialize: Bytes -> Option<Root>

    constructor (connection: Database, snapshotTableMap: map<string, string>,
                 serialize: Root -> Bytes, unserialize: Bytes -> Option<Root>)
      ensures this.connection == connection && this.snapshotTableMap == snapshotTableMap
      ensures this.serialize == serialize && this.unserialize == unserialize
    {
      this.connection := connection;
      this.snapshotTableMap := snapshotTableMap;
      this.serialize := serialize;
      this.unserialize := unserialize;
    }

    /** The row `save` inserts for a snapshot, column for column. */
    function RowOf(s: Snapshot<Root>): (x: Row)
      ensures Matches(x, s.aggregateType, s.aggregateId) && x.lastVersion == s.lastVersion
    {
      Row(s.aggregateType, s.aggregateId, s.lastVersion, s.createdAt, serialize(s.aggregateRoot))
    }

    /**
     * `get`: the snapshot of the aggregate's row with the highest version in
     * the resolved table, built from the caller's type and id and that row's
     * root, version and creation time; nothing when the aggregate has no row.
     */
    function Get(t: string, id: string): (r: Result<Option<Snapshot<Root>>, StoreError>)
      reads connection
      ensures var table := GetTable(snapshotTableMap, t);
        table !in connection.tables <==> r == Failure(NoSuchTable(table))
      ensures r.Failure? ==> r.error == NoSuchTable(GetTable(snapshotTableMap, t)) || r.error == CorruptPayload
      ensures var table := GetTable(snapshotTableMap, t);
        table in connection.tables ==>
          (r == Success(None) <==> forall x :: x in connection.tables[table] ==> !Matches(x, t, id))
      ensures var table := GetTable(snapshotTableMap, t);
        r.Success? && r.value.Some? ==>
          var snap := r.value.value;
          table in connection.tables && snap.aggregateType == t && snap.aggregateId == id &&
          exists x :: IsLatest(connection.tables[table], t, id, x) &&
            x.lastVersion == snap.lastVersion && x.createdAt == snap.createdAt &&
            unserialize(x.aggregateRoot) == Some(snap.aggregateRoot)
      ensures var table := GetTable(snapshotTableMap, t);
        r == Failure(CorruptPayload) ==>
          table in connection.tables &&
          exists x :: IsLatest(connection.tables[table], t, id, x) && unserialize(x.aggregateRoot) == None
    {
      var table := GetTable(snapshotTableMap, t);
      match connection.SelectLatest(table, t, id)
      case Failure(e) => Failure(e)
      case Success(None) => Success(None)
      case Success(Some(x)) =>
        match unserialize(x.aggregateRoot)
        case None => Failure(CorruptPayload)
        case Some(root) => Success(Some(Snapshot(t, id, root, x.lastVersion, x.createdAt)))
    }

    /** Every stored row of the snapshot's aggregate has a lower version than the snapshot. */
    ghost predicate AboveStored(s: Snapshot<Root>)
      reads connection
    {
      var table := GetTable(snapshotTableMap, s.aggregateType);
      table in connection.tables &&
      forall y :: y in connection.tables[table] && Matches(y, s.aggregateType, s.aggregateId) ==> y.lastVersion < s.lastVersion
    }

    /**
     * `save`: inserts the snapshot's row into the resolved table, then deletes
     * the rows of the same aggregate with a lower version. Every other table,
     * every row of another aggregate and every row of this aggregate at or
     * above the version stays; what `get` returns for any other aggregate is
     * unchanged; `get` on this aggregate then finds a version at least the
     * saved one, and exactly the saved snapshot when it was above every stored
     * version and its root survives serialization.
     */
    method Save(s: Snapshot<Root>) returns (r: Outcome<StoreError>)
      modifies connection
      ensures var table := GetTable(snapshotTableMap, s.aggregateType);
        if table in old(connection.tables) then
          r == Pass &&
          connection.tables == old(connection.tables)[table := SaveRows(old(connection.tables)[table], RowOf(s))]
        else
          r == Fail(NoSuchTable(table)) && connection.tables == old(connection.tables)
      ensures forall t, id :: t != s.aggregateType || id != s.aggregateId ==> Get(t, id) == old(Get(t, id))
      ensures r == Pass ==>
        var l := connection.SelectLatest(GetTable(snapshotTableMap, s.aggregateType), s.aggregateType, s.aggregateId);
        l.Success? && l.value.Some? && l.value.value.lastVersion >= s.lastVersion
      ensures old(AboveStored(s)) && unserialize(serialize(s.aggregateRoot)) == Some(s.aggregateRoot) ==>
        Get(s.aggregateType, s.aggregateId) == Success(Some(s))
    {
      ghost var before := connection.tables;
      var table := GetTable(snapshotTableMap, s.aggregateType);
      var x := RowOf(s);
      r := connection.Insert(table, x);
      if r.Fail? {
        return;
      }
      // `save` resolves the table a second time for the delete.
      table := GetTable(snapshotTableMap, s.aggregateType);
      r := connection.DeleteStale(table, s.aggregateType, s.aggregateId, s.lastVersion);
      assert connection.tables == before[table := SaveRows(before[table], x)];
      forall t, id | t != s.aggregateType || id != s.aggregateId
        ensures Get(t, id) == old(Get(t, id))
      {
        if GetTable(snapshotTableMap, t) == table {
          SaveKeepsOtherAggregates(before[table], x, t, id);
        }
      }
      SavedLatestAtLeast(s, before[table]);
      if old(AboveStored(s)) && unserialize(serialize(s.aggregateRoot)) == Some(s.aggregateRoot) {
        SavedRoundTrip(s, before[table]);
      }
    }

    /** After a save into `stored`, the select finds the aggregate at the saved version or above. */
    lemma SavedLatestAtLeast(s: Snapshot<Root>, stored: seq<Row>)
      requires var table := GetTable(snapshotTableMap, s.aggregateType);
        table in connection.tables && connection.tables[table] == SaveRows(stored, RowOf(s))
      ensures var l := connection.SelectLatest(GetTable(snapshotTableMap, s.aggregateType), s.aggregateType, s.aggregateId);
        l.Success? && l.value.Some? && l.value.value.lastVersion >= s.lastVersion
    {
      SaveThenLatestAtLeast(stored, RowOf(s));
    }

    /**
     * The save/get round trip: after saving above every stored version, `get`
     * returns the saved snapshot itself, provided its root survives
     * serialization.
     */
    lemma SavedRoundTrip(s: Snapshot<Root>, stored: seq<Row>)
      requires var table := GetTable(snapshotTableMap, s.aggregateType);
        table in connection.tables && connection.tables[table] == SaveRows(stored, RowOf(s))
      requires forall y :: y in stored && Matches(y, s.aggregateType, s.aggregateId) ==> y.lastVersion < s.lastVersion
      requires unserialize(serialize(s.aggregateRoot)) == Some(s.aggregateRoot)
      ensures Get(s.aggregateType, s.aggregateId) == Success(Some(s))
    {
      SaveNewestThenLatest(stored, RowOf(s));
    }
  }
}
