/**
 * The rows of one snapshot table and the three queries the adapter issues on
 * them: the insert of `save`, the pruning delete of `save`, and the
 * "latest row of an aggregate" select of `get`. Rows are kept in insertion
 * order; the queries are pure functions here, and the store in which they run
 * (module SnapshotStore) applies them to its tables.
 */
module Rows {
  import opened Wrappers

  /** The `blob` column: serialized bytes. */
  type Bytes = seq<bv8>

  /** One row of a snapshot table, column for column. */
  datatype Row = Row(
    aggregateType: string,
    aggregateId: string,
    lastVersion: int,
    createdAt: string,
    aggregateRoot: Bytes)

  /** `aggregate_type = t AND aggregate_id = id`. */
  predicate Matches(x: Row, t: string, id: string) {
    x.aggregateType == t && x.aggregateId == id
  }

  /** `aggregate_type = t AND aggregate_id = id AND last_version < v`: a row the pruning delete removes. */
  predicate Stale(x: Row, t: string, id: string, v: int) {
    Matches(x, t, id) && x.lastVersion < v
  }

  // ---------------------------------------------------------------------
  // The queries
  // ---------------------------------------------------------------------

  /**
   * The pruning delete: every stale row is removed, every other row is kept,
   * in its order.
   */
  function Prune(rows: seq<Row>, t: string, id: string, v: int): (r: seq<Row>)
    ensures forall x {:trigger x in r} :: x in r <==> x in rows && !Stale(x, t, id, v)
    ensures |r| <= |rows|
  {
    if rows == [] then []
    else (if Stale(rows[0], t, id, v) then [] else [rows[0]]) + Prune(rows[1..], t, id, v)
  }

  /** The rows of one aggregate, in order. */
  function Matching(rows: seq<Row>, t: string, id: string): (r: seq<Row>)
    ensures forall x {:trigger x in r} :: x in r <==> x in rows && Matches(x, t, id)
    ensures |r| <= |rows|
  {
    if rows == [] then []
    else (if Matches(rows[0], t, id) then [rows[0]] else []) + Matching(rows[1..], t, id)
  }

  /** `x` is a row of the aggregate and no row of the aggregate has a higher version. */
  predicate IsLatest(rows: seq<Row>, t: string, id: string, x: Row) {
    x in rows && Matches(x, t, id) &&
    forall y :: y in rows && Matches(y, t, id) ==> y.lastVersion <= x.lastVersion
  }

  /**
   * `SELECT * ... WHERE aggregate_type = t AND aggregate_id = id
   * ORDER BY last_version DESC LIMIT 1`: nothing when the aggregate has no row,
   * otherwise a row of the aggregate with the highest version. SQL does not say
   * which of several rows with that version comes first; this model takes the
   * earliest inserted.
   */
  function Latest(rows: seq<Row>, t: string, id: string): (r: Option<Row>)
    ensures r.None? <==> forall x :: x in rows ==> !Matches(x, t, id)
    ensures r.Some? ==> IsLatest(rows, t, id, r.value)
  {
    if rows == [] then None
    else
      var rest := Latest(rows[1..], t, id);
      if Matches(rows[0], t, id) && (rest.None? || rest.value.lastVersion <= rows[0].lastVersion)
      then Some(rows[0])
      else rest
  }

  /**
   * The effect of `save` on the rows of its table: the new row is appended,
   * then the rows of the same aggregate with a lower version are deleted.
   * The new row always survives, no row of the aggregate below its version
   * does, every other row is kept, and nothing else appears.
   */
  function SaveRows(rows: seq<Row>, x: Row): (r: seq<Row>)
    ensures x in r
    ensures forall y :: y in r && Matches(y, x.aggregateType, x.aggregateId) ==> y.lastVersion >= x.lastVersion
    ensures forall y :: y in rows && !Stale(y, x.aggregateType, x.aggregateId, x.lastVersion) ==> y in r
    ensures forall y :: y in r ==> y in rows || y == x
  {
    assert x in rows + [x];
    Prune(rows + [x], x.aggregateType, x.aggregateId, x.lastVersion)
  }

  /** A series of saves into one table, in the order given. */
  function SaveAll(rows: seq<Row>, xs: seq<Row>): seq<Row>
    decreases |xs|
  {
    if xs == [] then rows else SaveAll(SaveRows(rows, xs[0]), xs[1..])
  }

  /** The version `get` reports for an aggregate, if it has a row. */
  function LatestVersion(rows: seq<Row>, t: string, id: string): Option<int> {
    match Latest(rows, t, id)
    case None => None
    case Some(x) => Some(x.lastVersion)
  }

  function MaxVersion(a: Option<int>, b: Option<int>): Option<int> {
    match (a, b)
    case (None, _) => b
    case (_, None) => a
    case (Some(u), Some(w)) => Some(if u < w then w else u)
  }

  // ---------------------------------------------------------------------
  // Filters distribute over concatenation
  // ---------------------------------------------------------------------

  lemma {:induction false} MatchingAppend(a: seq<Row>, b: seq<Row>, t: string, id: string)
    ensures Matching(a + b, t, id) == Matching(a, t, id) + Matching(b, t, id)
    decreases |a|
  {
    if a != [] {
      var h := (if Matches(a[0], t, id) then [a[0]] else []);
      assert (a + b)[0] == a[0] && (a + b)[1..] == a[1..] + b;
      assert Matching(a + b, t, id) == h + Matching(a[1..] + b, t, id);
      MatchingAppend(a[1..], b, t, id);
      assert Matching(a, t, id) == h + Matching(a[1..], t, id);
      assert h + (Matching(a[1..], t, id) + Matching(b, t, id)) == (h + Matching(a[1..], t, id)) + Matching(b, t, id);
    } else {
      assert a + b == b;
    }
  }

  lemma {:induction false} PruneAppend(a: seq<Row>, b: seq<Row>, t: string, id: string, v: int)
    ensures Prune(a + b, t, id, v) == Prune(a, t, id, v) + Prune(b, t, id, v)
    decreases |a|
  {
    if a != [] {
      var h := (if Stale(a[0], t, id, v) then [] else [a[0]]);
      assert (a + b)[0] == a[0] && (a + b)[1..] == a[1..] + b;
      assert Prune(a + b, t, id, v) == h + Prune(a[1..] + b, t, id, v);
      PruneAppend(a[1..], b, t, id, v);
      assert Prune(a, t, id, v) == h + Prune(a[1..], t, id, v);
      assert h + (Prune(a[1..], t, id, v) + Prune(b, t, id, v)) == (h + Prune(a[1..], t, id, v)) + Prune(b, t, id, v);
    } else {
      assert a + b == b;
    }
  }

  // ---------------------------------------------------------------------
  // Copies: the filters keep every copy of a kept row
  // ---------------------------------------------------------------------

  /**
   * The delete removes every copy of a stale row and keeps every copy of any
   * other row; identical rows (the same snapshot saved twice) are counted.
   */
  lemma {:induction false} PruneCounts(rows: seq<Row>, t: string, id: string, v: int)
    ensures forall x :: multiset(Prune(rows, t, id, v))[x] == if Stale(x, t, id, v) then 0 else multiset(rows)[x]
    decreases |rows|
  {
    if rows != [] {
      PruneCounts(rows[1..], t, id, v);
      assert rows == [rows[0]] + rows[1..];
    }
  }

  /** The type-and-id filter keeps every copy of a row of the aggregate and no copy of any other. */
  lemma {:induction false} MatchingCounts(rows: seq<Row>, t: string, id: string)
    ensures forall x :: multiset(Matching(rows, t, id))[x] == if Matches(x, t, id) then multiset(rows)[x] else 0
    decreases |rows|
  {
    if rows != [] {
      MatchingCounts(rows[1..], t, id);
      assert rows == [rows[0]] + rows[1..];
    }
  }

  /**
   * A save leaves one copy more of the new row than were stored, unless the
   * row was stale, which it never is, and as many copies of every other
   * non-stale row as were stored.
   */
  lemma SaveRowsCounts(rows: seq<Row>, x: Row)
    ensures forall y :: multiset(SaveRows(rows, x))[y]
                        == (if Stale(y, x.aggregateType, x.aggregateId, x.lastVersion) then 0 else multiset(rows + [x])[y])
    ensures multiset(SaveRows(rows, x))[x] == multiset(rows)[x] + 1
  {
    PruneCounts(rows + [x], x.aggregateType, x.aggregateId, x.lastVersion);
  }

  // ---------------------------------------------------------------------
  // What the pruning delete leaves alone
  // ---------------------------------------------------------------------

  /** The delete does not change the rows of any other aggregate, nor their order. */
  lemma {:induction false} PruneKeepsOtherAggregates(rows: seq<Row>, t: string, id: string, v: int, t': string, id': string)
    requires t != t' || id != id'
    ensures Matching(Prune(rows, t, id, v), t', id') == Matching(rows, t', id')
    decreases |rows|
  {
    if rows != [] {
      PruneKeepsOtherAggregates(rows[1..], t, id, v, t', id');
      MatchingAppend(if Stale(rows[0], t, id, v) then [] else [rows[0]], Prune(rows[1..], t, id, v), t', id');
    }
  }

  /** With no stale row the delete is a no-op (the first save of an aggregate). */
  lemma {:induction false} PruneNothingStale(rows: seq<Row>, t: string, id: string, v: int)
    requires forall x :: x in rows ==> !Stale(x, t, id, v)
    ensures Prune(rows, t, id, v) == rows
    decreases |rows|
  {
    if rows != [] {
      PruneNothingStale(rows[1..], t, id, v);
    }
  }

  /** When every row of the aggregate is below `v`, the delete removes them all. */
  lemma {:induction false} PruneAllStale(rows: seq<Row>, t: string, id: string, v: int)
    requires forall x :: x in rows && Matches(x, t, id) ==> x.lastVersion < v
    ensures Matching(Prune(rows, t, id, v), t, id) == []
    decreases |rows|
  {
    if rows != [] {
      PruneAllStale(rows[1..], t, id, v);
      MatchingAppend(if Stale(rows[0], t, id, v) then [] else [rows[0]], Prune(rows[1..], t, id, v), t, id);
    }
  }

  // ---------------------------------------------------------------------
  // The select depends only on the rows of its aggregate
  // ---------------------------------------------------------------------

  lemma {:induction false} LatestOfMatching(rows: seq<Row>, t: string, id: string)
    ensures Latest(Matching(rows, t, id), t, id) == Latest(rows, t, id)
    decreases |rows|
  {
    if rows != [] {
      LatestOfMatching(rows[1..], t, id);
      if Matches(rows[0], t, id) {
        assert Matching(rows, t, id) == [rows[0]] + Matching(rows[1..], t, id);
        assert Matching(rows, t, id)[1..] == Matching(rows[1..], t, id);
      } else {
        assert Matching(rows, t, id) == Matching(rows[1..], t, id);
      }
    }
  }

  lemma SameMatchingSameLatest(a: seq<Row>, b: seq<Row>, t: string, id: string)
    requires Matching(a, t, id) == Matching(b, t, id)
    ensures Latest(a, t, id) == Latest(b, t, id)
  {
    LatestOfMatching(a, t, id);
    LatestOfMatching(b, t, id);
  }

  // ---------------------------------------------------------------------
  // Save, then select
  // ---------------------------------------------------------------------

  /**
   * A save never disturbs another aggregate in the same table: its rows, their
   * order and what the select returns for it are the same as before.
   */
  lemma SaveKeepsOtherAggregates(rows: seq<Row>, x: Row, t: string, id: string)
    requires t != x.aggregateType || id != x.aggregateId
    ensures Matching(SaveRows(rows, x), t, id) == Matching(rows, t, id)
    ensures Latest(SaveRows(rows, x), t, id) == Latest(rows, t, id)
  {
    PruneKeepsOtherAggregates(rows + [x], x.aggregateType, x.aggregateId, x.lastVersion, t, id);
    MatchingAppend(rows, [x], t, id);
    assert Matching([x], t, id) == [];
    SameMatchingSameLatest(SaveRows(rows, x), rows, t, id);
  }

  /** After a save, the select finds the aggregate, at the saved version or a higher one. */
  lemma SaveThenLatestAtLeast(rows: seq<Row>, x: Row)
    ensures var l := Latest(SaveRows(rows, x), x.aggregateType, x.aggregateId);
      l.Some? && l.value.lastVersion >= x.lastVersion
  {
  }

  /**
   * A save above every stored version of its aggregate leaves the new row as
   * the aggregate's only row, and the select returns exactly it (the
   * save/get round trip).
   */
  lemma SaveNewestThenLatest(rows: seq<Row>, x: Row)
    requires forall y :: y in rows && Matches(y, x.aggregateType, x.aggregateId) ==> y.lastVersion < x.lastVersion
    ensures Matching(SaveRows(rows, x), x.aggregateType, x.aggregateId) == [x]
    ensures Latest(SaveRows(rows, x), x.aggregateType, x.aggregateId) == Some(x)
  {
    var t, id, v := x.aggregateType, x.aggregateId, x.lastVersion;
    PruneAppend(rows, [x], t, id, v);
    assert Prune([x], t, id, v) == [x];
    MatchingAppend(Prune(rows, t, id, v), [x], t, id);
    PruneAllStale(rows, t, id, v);
    assert Matching([x], t, id) == [x];
    LatestOfMatching(SaveRows(rows, x), t, id);
  }

  /** The versions of a series of saves of one aggregate increase strictly. */
  predicate IncreasingSaves(xs: seq<Row>, t: string, id: string) {
    (forall i :: 0 <= i < |xs| ==> Matches(xs[i], t, id)) &&
    (forall i, j :: 0 <= i < j < |xs| ==> xs[i].lastVersion < xs[j].lastVersion)
  }

  /**
   * Saves of increasing versions (1, 2, 3, ...) above everything stored leave
   * only the last one as the aggregate's row.
   */
  lemma {:induction false} IncreasingSavesLeaveLast(rows: seq<Row>, xs: seq<Row>, t: string, id: string)
    requires |xs| > 0 && IncreasingSaves(xs, t, id)
    requires forall y :: y in rows && Matches(y, t, id) ==> y.lastVersion < xs[0].lastVersion
    ensures Matching(SaveAll(rows, xs), t, id) == [xs[|xs| - 1]]
    decreases |xs|
  {
    SaveNewestThenLatest(rows, xs[0]);
    var next := SaveRows(rows, xs[0]);
    if |xs| > 1 {
      var rest := xs[1..];
      assert IncreasingSaves(rest, t, id) by {
        forall i, j | 0 <= i < j < |rest| ensures rest[i].lastVersion < rest[j].lastVersion {
          assert rest[i] == xs[i + 1] && rest[j] == xs[j + 1];
        }
      }
      forall y | y in next && Matches(y, t, id) ensures y.lastVersion < rest[0].lastVersion {
        assert y in Matching(next, t, id);
      }
      IncreasingSavesLeaveLast(next, rest, t, id);
      assert rest[|rest| - 1] == xs[|xs| - 1];
    }
  }

  // ---------------------------------------------------------------------
  // The highest version survives any order of saves
  // ---------------------------------------------------------------------

  /** The select on two row sequences together reports the higher of their versions. */
  lemma LatestVersionAppend(a: seq<Row>, b: seq<Row>, t: string, id: string)
    ensures LatestVersion(a + b, t, id) == MaxVersion(LatestVersion(a, t, id), LatestVersion(b, t, id))
  {
    var la, lb, lab := Latest(a, t, id), Latest(b, t, id), Latest(a + b, t, id);
    if la.Some? { assert la.value in a + b; }
    if lb.Some? { assert lb.value in a + b; }
    if lab.Some? {
      var z := lab.value;
      if z in a { assert la.Some?; } else { assert z in b; assert lb.Some?; }
    } else {
      forall x | x in a ensures !Matches(x, t, id) { assert x in a + b; }
      forall x | x in b ensures !Matches(x, t, id) { assert x in a + b; }
    }
  }

  /** A save does not change the version the select reports, taking the new row into account. */
  lemma SaveKeepsLatestVersion(rows: seq<Row>, x: Row, t: string, id: string)
    ensures LatestVersion(SaveRows(rows, x), t, id) == LatestVersion(rows + [x], t, id)
  {
    if t != x.aggregateType || id != x.aggregateId {
      SaveKeepsOtherAggregates(rows, x, t, id);
      MatchingAppend(rows, [x], t, id);
      assert Matching([x], t, id) == [];
      assert rows + [] == rows;
      SameMatchingSameLatest(rows + [x], rows, t, id);
    } else {
      SaveKeepsOwnLatestVersion(rows, x);
    }
  }

  /** The same, for the saved row's own aggregate. */
  lemma SaveKeepsOwnLatestVersion(rows: seq<Row>, x: Row)
    ensures var t, id := x.aggregateType, x.aggregateId;
      LatestVersion(SaveRows(rows, x), t, id) == LatestVersion(rows + [x], t, id)
  {
    var t, id := x.aggregateType, x.aggregateId;
    var saved := SaveRows(rows, x);
    assert x in rows + [x];
    var z := Latest(rows + [x], t, id).value;
    assert z.lastVersion >= x.lastVersion;
    assert z in saved;
    var w := Latest(saved, t, id).value;
    assert w in rows + [x];
    assert w.lastVersion == z.lastVersion;
  }

  /**
   * However a series of saves is ordered, the select afterwards reports the
   * highest version among the stored rows and all the saved ones: the
   * pruning never removes the newest snapshot.
   */
  lemma {:induction false} SaveAllKeepsHighestVersion(rows: seq<Row>, xs: seq<Row>, t: string, id: string)
    ensures LatestVersion(SaveAll(rows, xs), t, id) == LatestVersion(rows + xs, t, id)
    decreases |xs|
  {
    if xs == [] {
      assert rows + xs == rows;
    } else {
      var next, x, rest := SaveRows(rows, xs[0]), xs[0], xs[1..];
      assert rows + [x] + rest == rows + xs;
      calc {
        LatestVersion(SaveAll(rows, xs), t, id);
        { SaveAllKeepsHighestVersion(next, rest, t, id); }
        LatestVersion(next + rest, t, id);
        { LatestVersionAppend(next, rest, t, id); }
        MaxVersion(LatestVersion(next, t, id), LatestVersion(rest, t, id));
        { SaveKeepsLatestVersion(rows, x, t, id); }
        MaxVersion(LatestVersion(rows + [x], t, id), LatestVersion(rest, t, id));
        { LatestVersionAppend(rows + [x], rest, t, id); }
        LatestVersion(rows + [x] + rest, t, id);
      }
    }
  }
}
