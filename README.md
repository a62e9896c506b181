# Snapshot store for event-sourced aggregates — a Dafny model

This project models `DoctrineSnapshotAdapter`, the relational snapshot store of
prooph's event store. The adapter keeps, for each aggregate (a type and an
id), serialized snapshots of its state tagged with the last event version they
reflect:

- `save(snapshot)` inserts one row into the table of the aggregate's type, then
  deletes every row of the same aggregate with a strictly lower version;
- `get(type, id)` reads the aggregate's row with the highest version and
  rebuilds the snapshot from it, or returns nothing;
- the table of a type is the one given in the adapter's table map, or else one
  derived from the type name: `-` becomes `_`, the text after the last `\` is
  kept, it is lower-cased, and `_snapshot` is appended unless the name already
  contains `_snapshot`.

Modules:

- `Wrappers` (`wrappers.dfy`): `Option`, `Result`, `Outcome`.
- `TableNames` (`table_names.dfy`): table resolution as pure functions —
  `ReplaceDashes` (`str_replace`), `Explode`/`Implode`, `ShortName`, `Lower`
  (`strtolower`), `StrPos`, `DeriveTable`, `GetTable` — with the idempotence of
  derivation and worked examples.
- `Rows` (`rows.dfy`): a table's rows in insertion order and the queries the
  adapter runs on them — the pruning delete (`Prune`), the latest-row select
  (`Latest`), the effect of a save on its table (`SaveRows`) — with the lemmas
  that a save keeps other aggregates intact, never removes the newest row, and
  round-trips.
- `SnapshotStore` (`snapshot_store.dfy`): the class `Database` (the abstract
  relational store behind the connection: a map from table name to rows, with
  the insert, delete and select statements) and the class
  `DoctrineSnapshotAdapter<Root>` holding the shared connection, the immutable
  table map and the serializer pair, with `Get` (a function of the store) and
  `Save` (a method that updates the store in two steps).

The connection is an object the adapter holds a reference to but does not
own, as the PHP adapter does; `Save` may change only that object.

Two consequences of the code are worth spelling out:

- `App\UserSnapshot` resolves to `usersnapshot_snapshot`: `getTable` tests
  for the substring `_snapshot`, which `usersnapshot` lacks
  (`TableNames.ExampleUserSnapshot`).
- Hyphens are replaced in the whole type string before it is split at `\`;
  since `-` is not `\`, the short name is the last segment with its hyphens
  replaced, whatever the namespace holds (`TableNames.ShortNameOfQualified`).

## Model

| member | source | states |
|---|---|---|
| TableNames.ReplaceDashes | src/DoctrineSnapshotAdapter.php:126 | every `-` becomes `_`, the length is kept and every other character stays in place; the result has no `-` |
| TableNames.Explode | src/DoctrineSnapshotAdapter.php:127 | `explode` yields at least one piece, no piece holds the separator, a string without it is one piece, a string with it at least two |
| TableNames.ImplodeExplode | src/DoctrineSnapshotAdapter.php:127 | joining the pieces of a string with the separator gives the string back |
| TableNames.ShortName | src/DoctrineSnapshotAdapter.php:124-128 | the short name is a suffix of the hyphen-replaced type string that holds no `\` and no `-` and is preceded by a `\` or is the whole string; with no `\` in the type it is the whole hyphen-replaced string |
| TableNames.ReplaceDashesConcat | src/DoctrineSnapshotAdapter.php:126 | hyphen replacement on a concatenation is the concatenation of the replaced parts |
| TableNames.ShortNameOfQualified | src/DoctrineSnapshotAdapter.php:124-128 | for a type `prefix\short` with `short` free of `\`, the short name is `short` with its hyphens replaced, whatever the prefix holds, hyphens included |
| TableNames.Lower | src/DoctrineSnapshotAdapter.php:116 | lower-casing maps every character through ASCII `strtolower`, leaves no capital and is the identity on a string without capitals |
| TableNames.StrPos | src/DoctrineSnapshotAdapter.php:117 | `strpos` returns the first position where the needle occurs, and `false` exactly when it occurs nowhere |
| TableNames.DeriveTable | src/DoctrineSnapshotAdapter.php:116-119 | an unmapped type's table is the lower-cased short name when that contains `_snapshot`, else it with `_snapshot` appended; either way it contains `_snapshot`, no `\`, no `-` and no capital |
| TableNames.GetTable | src/DoctrineSnapshotAdapter.php:111-122 | a type in the table map gets its mapped name verbatim; any other type gets a derived-shape name |
| TableNames.DeriveTableIdempotent | src/DoctrineSnapshotAdapter.php:116-128 | deriving again from a derived table name returns the same name |
| TableNames.GetTableDerivedStable | src/DoctrineSnapshotAdapter.php:111-128 | resolving a resolved unmapped name again, when it is not itself mapped, gives the same table |
| TableNames.ExampleNamespacedUser | src/DoctrineSnapshotAdapter.php:116-119 | `App\Domain\User` resolves to `user_snapshot` |
| TableNames.ExampleHyphen | src/DoctrineSnapshotAdapter.php:126 | `Order-Line` resolves to `order_line_snapshot` |
| TableNames.ExampleAlreadySuffixed | src/DoctrineSnapshotAdapter.php:117 | `App\User_Snapshot` resolves to `user_snapshot`, with no second suffix |
| TableNames.ExampleUserSnapshot | src/DoctrineSnapshotAdapter.php:117-118 | `App\UserSnapshot` resolves to `usersnapshot_snapshot` |
| TableNames.ExampleMapped | src/DoctrineSnapshotAdapter.php:113-114 | with `x` mapped to `custom_tbl`, type `x` uses `custom_tbl` |
| TableNames.ExampleSharedShortName | src/DoctrineSnapshotAdapter.php:124-128 | `A\User` and `B\User` share the table `user_snapshot` |
| Rows.Prune | src/DoctrineSnapshotAdapter.php:99-108 | the pruning delete keeps exactly the rows that are not of the aggregate with a version below the saved one |
| Rows.PruneCounts | src/DoctrineSnapshotAdapter.php:99-108 | the delete removes every copy of a stale row and keeps every copy of each other row, identical rows counted |
| Rows.Matching | src/DoctrineSnapshotAdapter.php:51-52 | the type-and-id filter keeps exactly the rows of the aggregate |
| Rows.MatchingCounts | src/DoctrineSnapshotAdapter.php:51-52 | the filter keeps every copy of a row of the aggregate and no copy of any other |
| Rows.Latest | src/DoctrineSnapshotAdapter.php:48-56 | the select returns nothing exactly when no row has the type and the id; otherwise a row of the aggregate whose version no row of the aggregate exceeds |
| Rows.SaveRows | src/DoctrineSnapshotAdapter.php:79-108 | after insert-then-delete the new row is in the table, no row of the aggregate is below its version, every row not stale is kept, and no other row appears |
| Rows.SaveRowsCounts | src/DoctrineSnapshotAdapter.php:79-108 | after a save each row has as many copies as in the stored rows plus the new one, or none when it is stale; the new row has one copy more than before, so saving the same snapshot twice leaves two |
| Rows.PruneKeepsOtherAggregates | src/DoctrineSnapshotAdapter.php:101-103 | the delete leaves the rows of every other aggregate, and their order, as they were |
| Rows.PruneNothingStale | src/DoctrineSnapshotAdapter.php:97-108 | when no row is stale (the first save of an aggregate) the delete changes nothing |
| Rows.PruneAllStale | src/DoctrineSnapshotAdapter.php:97-108 | when every row of the aggregate is below the version, none of them survives |
| Rows.LatestOfMatching | src/DoctrineSnapshotAdapter.php:51-56 | the select on a table gives the same answer as on the aggregate's rows alone |
| Rows.SaveKeepsOtherAggregates | src/DoctrineSnapshotAdapter.php:99-106 | a save leaves the rows of every other aggregate in a shared table, and the select for it, unchanged |
| Rows.SaveThenLatestAtLeast | src/DoctrineSnapshotAdapter.php:99-106 | after a save the select finds the aggregate at the saved version or higher |
| Rows.SaveNewestThenLatest | src/DoctrineSnapshotAdapter.php:75-108 | a save above every stored version of its aggregate leaves the new row as its only row, and the select returns it |
| Rows.IncreasingSavesLeaveLast | src/DoctrineSnapshotAdapter.php:97-108 | saves of strictly increasing versions leave only the last as the aggregate's row |
| Rows.LatestVersionAppend | src/DoctrineSnapshotAdapter.php:53-56 | the version the select reports on two row sequences together is the higher of the two |
| Rows.SaveKeepsLatestVersion | src/DoctrineSnapshotAdapter.php:99-106 | a save reports the same highest version as the table plus the new row: the newest row is never pruned |
| Rows.SaveKeepsOwnLatestVersion | src/DoctrineSnapshotAdapter.php:99-106 | the same, for the saved row's own aggregate |
| Rows.SaveAllKeepsHighestVersion | src/DoctrineSnapshotAdapter.php:75-108 | after saves in any order, the select reports the highest version among the stored rows and all saved ones |
| SnapshotStore.Database.Insert | src/DoctrineSnapshotAdapter.php:79-95 | the insert appends the row to the named table and fails, changing nothing, on an unknown table |
| SnapshotStore.Database.DeleteStale | src/DoctrineSnapshotAdapter.php:97-108 | the delete replaces the named table by its pruned rows and fails, changing nothing, on an unknown table |
| SnapshotStore.Database.SelectLatest | src/DoctrineSnapshotAdapter.php:46-60 | the select fails exactly on an unknown table, and then only with that table's error; it returns no row exactly when the aggregate has none, and otherwise a latest row of it |
| SnapshotStore.DoctrineSnapshotAdapter.constructor | src/DoctrineSnapshotAdapter.php:38-42 | the adapter keeps the given connection and table map |
| SnapshotStore.DoctrineSnapshotAdapter.RowOf | src/DoctrineSnapshotAdapter.php:79-95 | the inserted row carries the snapshot's type, id and version |
| SnapshotStore.DoctrineSnapshotAdapter.Get | src/DoctrineSnapshotAdapter.php:44-73 | `get` fails exactly on an unknown table, returns nothing exactly when no row has the type and id, and otherwise a snapshot with the caller's type and id and the version, creation time and unserialized root of a latest row; the only errors are the unknown resolved table and a corrupt payload of a latest row, so a latest row whose root unserializes always gives a snapshot |
| SnapshotStore.DoctrineSnapshotAdapter.Save | src/DoctrineSnapshotAdapter.php:75-109 | `save` replaces only the resolved table, by its rows after insert-then-delete; `get` for every other aggregate is unchanged; the select for this one finds the saved version or higher, and exactly the saved snapshot when it was above every stored version and its root survives serialization |
| SnapshotStore.DoctrineSnapshotAdapter.SavedLatestAtLeast | src/DoctrineSnapshotAdapter.php:99-106 | once the table holds the saved rows, the select finds the aggregate at the saved version or higher |
| SnapshotStore.DoctrineSnapshotAdapter.SavedRoundTrip | src/DoctrineSnapshotAdapter.php:66-108 | save above every stored version, then `get`, returns the saved snapshot |

## Left out

- The Doctrine `Connection` and `QueryBuilder`: replaced by the `Database` class, whose only failure is a statement on an unknown table; other driver errors (connectivity, constraints, timeouts) are not modelled.
- PHP `serialize`/`unserialize`: the adapter takes them as a function pair and does not define them; the stream branch of `unserializeAggregateRoot` (`stream_get_contents` on a resource) is not modelled, as the payload is always bytes here.
- SnapshotStore.DoctrineSnapshotAdapter.Get: a payload that does not unserialize makes PHP's `unserialize` return `false`, and what the `Snapshot` constructor (not part of this model) then does is not visible; the model reports it as the error `CorruptPayload` instead of building a snapshot.
- `DateTimeImmutable` formatting and parsing of `created_at`: the snapshot and the row both carry the stored string, so a timestamp that does not parse is not modelled. `save` formats the time without its zone offset (`Y-m-d\TH:i:s.u`) and `get` parses it as UTC, so a time in another zone comes back as the same wall-clock time in UTC; the round trip of `Save` and `SavedRoundTrip` is a round trip of the stored string only.
- `Rows.Matches` treats SQL `=` on `aggregate_type` and `aggregate_id` as exact string equality. Under a case-insensitive collation (the MySQL default), `App\User` and `App\user` share the table `user_snapshot` and their rows match each other, which the results that a save never disturbs another aggregate do not cover.
- `AggregateType` is represented by its string form; only `toString()` is used by the adapter.
- Concurrency: each `save` runs its insert and its delete one after the other with nothing in between; interleavings of concurrent saves are not modelled. `Rows.SaveAllKeepsHighestVersion` covers saves arriving in any order.
- `last_version` is an unbounded integer; PHP's 64-bit integer limit is not modelled.
- `strtolower` is ASCII lower-casing (the behaviour of PHP 8.2 and later); the locale-dependent lower-casing of earlier PHP versions is not modelled.
- Rows with equal highest versions: SQL does not fix which one `LIMIT 1` returns; `Rows.Latest` returns the earliest inserted. The contracts about the returned version hold for any choice, but those that compare whole rows or snapshots (`Save`'s clause that `get` for other aggregates is unchanged, `Rows.SaveKeepsOtherAggregates`, `Rows.LatestOfMatching`) rely on this tie rule, and a database may return a different tied row after a write.
- The dependency-injection factory (`src/Container/DoctrineSnapshotAdapterFactory.php`), the schema helper (`src/Schema/SnapshotStoreSchema.php`) and their tests are not part of this model.
