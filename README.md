# MSC2836 relationship store, modelled in Dafny

This project models the storage layer of Dendrite's MSC2836 (threaded
messages) implementation. It covers:

- how a `(parent, child, relType)` triple is taken from an event's
  `m.relationship` content;
- the two tables that triple and the event's metadata go into
  (`msc2836_edges`, `msc2836_nodes`);
- the parent-to-children lookup, filtered by relation type.

Files:

- `events.dfy` (module `Events`): the event as seen through the accessors the
  store uses (`EventID`, `RoomID`, `OriginServerTS`, `Content`). Content is
  abstract: either it does not decode into the `m.relationship` target, or it
  decodes with optional `rel_type` and `event_id` strings. A nil event is
  `None`. `ParentChildEventIDs` is the extraction.
- `tables.dfy` (module `Tables`): the semantics that the DDL and the
  statements give the tables, on values.
  - `msc2836_edges` is a sequence of distinct rows. `UNIQUE` over the triple
    plus `ON CONFLICT DO NOTHING` makes an insert a set insertion.
  - `msc2836_nodes` is a map keyed by `event_id`. The primary key plus
    `DO NOTHING` makes an insert first-write-wins.
  - The `SELECT ... WHERE` is a filter over the edge rows.

  `Store` is a whole `StoreRelation` call on values. `Replay` is a run of such
  calls, in the order the writer serialises them. The module's lemmas cover
  idempotence, first-write-wins, the no-op cases, the frame, the table
  invariant, query membership and uniqueness, and the store-then-query round
  trip.
- `storage.dfy` (module `Storage`): the `DB` object. Its two fields are the
  two tables, which `StoreRelation` updates in place. `ChildrenForParent`
  collects the matching child IDs row by row in a loop, as the
  `for rows.Next()` loop appends to `children`. Each method is proved against
  the functions in `Tables`. `TypeFilteredLookup` is a client: it stores B and C as
  `m.reference` children of A and D as an `m.reply` child of A, then looks
  them up.

An extraction result is not always either all-empty or free of empty
fields: the code gives `(event_id, "", rel_type)` for an event whose own ID is
empty (`storage.go:172`), and `StoreRelation`'s `child == ""` guard
(`storage.go:126`) drops it. So "no empty field" holds for every stored edge
(`TablesValid`, `StoredRelationIsWellFormed`) but not for every extraction
result (`EmptyEventIDHasNoRelation`).

## Model

| member | source | states |
|---|---|---|
| `Events.ParentChildEventIDs` | internal/mscs/msc2836/storage.go:156-173 | a nil event, content that does not decode, or an empty `event_id` or `rel_type` give the all-empty triple; otherwise the triple is (content's `event_id`, the event's own ID, content's `rel_type`); parent and relType are both empty or both non-empty |
| `Events.HasRelation` | internal/mscs/msc2836/storage.go:125-128 | the guard lets an event through exactly when it is present, its content declares a relationship with non-empty `event_id` and `rel_type`, and its own ID is non-empty |
| `Events.StoredRelationIsWellFormed` | internal/mscs/msc2836/storage.go:125-128 | whenever the store's guard lets a triple through, the content declares a relationship, all three fields are non-empty, and the child is the event's own ID |
| `Events.EmptyEventIDHasNoRelation` | internal/mscs/msc2836/storage.go:126-172 | an event with an empty ID yields a triple with an empty child; when its content declares a relationship that triple is `(event_id, "", rel_type)`, not the all-empty one; the guard finds no relation |
| `Events.SelfReferenceIsKept` | internal/mscs/msc2836/storage.go:169-172 | no self-reference check: content naming the event's own ID as parent gives the edge (id, id, relType) |
| `Tables.InsertEdge` | internal/mscs/msc2836/storage.go:47-64 | the edge insert is set insertion: the rows afterwards are the old rows plus the triple; old rows are kept as a prefix; at most one row is added; an existing triple adds nothing; distinctness is preserved |
| `Tables.InsertNode` | internal/mscs/msc2836/storage.go:54-69 | the node insert adds the key if absent, never changes an existing row, and stores the given row only for a new key |
| `Tables.NodeOf` | internal/mscs/msc2836/storage.go:134 | the node row an event contributes, built from its own origin timestamp and room ID; its effect is stated by `Tables.StoreFrame` (a new key gets exactly these two values) and `Tables.FirstWriteWins` |
| `Tables.Store` | internal/mscs/msc2836/storage.go:124-128 | when the guard finds no relation, the tables are unchanged |
| `Tables.StoreFrame` | internal/mscs/msc2836/storage.go:124-136 | a store with a relation adds at most the derived triple to the edge rows, adds nothing when that triple is already stored, and adds exactly the event's ID to the node keys; a new node row holds the event's own origin timestamp and room ID; the triple's child is that ID and no field is empty |
| `Tables.StoreKeepsNodes` | internal/mscs/msc2836/storage.go:97-113 | an existing node row is unchanged by any later store |
| `Tables.FirstWriteWins` | internal/mscs/msc2836/storage.go:129-136 | of two events with the same ID, the node row holds the first one's timestamp and room |
| `Tables.StoreIdempotent` | internal/mscs/msc2836/storage.go:129-136 | storing an event twice leaves the same tables as storing it once |
| `Tables.StorePreservesValid` | internal/mscs/msc2836/storage.go:124-136 | the table invariant holds after every store: distinct edge rows, no empty field in any edge, node keys exactly the edges' child IDs |
| `Tables.ChildrenOf` | internal/mscs/msc2836/storage.go:116-118 | the filter over the edge rows: every child it returns comes from a row with that parent and relType, and it returns no more children than there are rows |
| `Tables.ChildrenOfMembership` | internal/mscs/msc2836/storage.go:73-75 | the child query contains c exactly when the edge (parent, c, relType) is stored |
| `Tables.ChildrenOfCount` | internal/mscs/msc2836/storage.go:116-118 | one child per matching row: c occurs in the query result exactly as many times as the edge (parent, c, relType) occurs among the rows |
| `Tables.ChildrenOfDistinct` | internal/mscs/msc2836/storage.go:47-75 | because edge rows are unique, the query result has no duplicates |
| `Tables.NoMatchGivesEmpty` | internal/mscs/msc2836/storage.go:145-153 | when no row matches parent and relType, the result is the empty list |
| `Tables.EmptyKeyGivesEmpty` | internal/mscs/msc2836/storage.go:139-153 | for valid tables, an empty parent ID or relation type gives the empty list |
| `Tables.StoreThenQuery` | internal/mscs/msc2836/storage.go:124-153 | round trip: after storing an event that derives (P, C, R), the query for (P, R) contains C |
| `Tables.StoreQueryResult` | internal/mscs/msc2836/storage.go:124-153 | after a store, each query's list is the old list, followed by the derived child exactly when the store added a new row for that (parent, relType) |
| `Tables.StoreQueryEffect` | internal/mscs/msc2836/storage.go:124-153 | after a store, a query contains exactly what it contained before plus the derived child for the derived (parent, relType) pair |
| `Tables.Replay` | internal/mscs/msc2836/storage.go:129-136 | a run of stores serialised by the writer keeps the old edge rows as a prefix, adds at most one row per call, and never removes a node key |
| `Tables.AbsorbedIsNoop` | internal/mscs/msc2836/storage.go:129-136 | when the derived triple and the event's node key are already present, a store changes nothing |
| `Tables.ReplayAbsorbed` | internal/mscs/msc2836/storage.go:129-136 | a run of stores whose effects are all already present changes nothing |
| `Tables.ReplayGrows` | internal/mscs/msc2836/storage.go:129-136 | a run of stores keeps every old edge row in place and leaves every existing node row unchanged |
| `Tables.ReplayAbsorbsAll` | internal/mscs/msc2836/storage.go:129-136 | after a run of stores, every event of the run has its triple and node key present |
| `Tables.ReplayTwiceIsOnce` | internal/mscs/msc2836/storage.go:129-136 | replaying a whole run a second time leaves the tables unchanged |
| `Tables.RepeatedStoreConverges` | internal/mscs/msc2836/storage.go:124-137 | N >= 1 serialised stores of one event leave the same tables as a single store |
| `Tables.RepeatedStoreSingleRow` | internal/mscs/msc2836/storage.go:90-95 | from valid tables, those N stores leave exactly one row for the derived edge |
| `Tables.ReplayPreservesValid` | internal/mscs/msc2836/storage.go:124-137 | any run of stores keeps the table invariant |
| `Tables.ReplaySingleRow` | internal/mscs/msc2836/storage.go:47-52 | from valid tables, any run of stores containing events that derive the same edge (whatever their timestamps or rooms) leaves exactly one row for it |
| `Tables.ReplayFirstWriteWins` | internal/mscs/msc2836/storage.go:111-113 | in a run of stores, the node row for an ID not already present holds the metadata of the first event in the run that stores that ID |
| `Storage.DB.constructor` | internal/mscs/msc2836/storage.go:89-102 | freshly created tables are empty and satisfy the table invariant |
| `Storage.DB.StoreRelation` | internal/mscs/msc2836/storage.go:124-137 | the new tables are `Store` of the old tables and the event, and the table invariant is kept |
| `Storage.DB.ChildrenForParent` | internal/mscs/msc2836/storage.go:139-154 | the result contains exactly the children of the edges with that parent and relType, with no duplicates; it is empty when nothing matches and when either key is empty |
| `Storage.TypeFilteredLookup` | internal/mscs/msc2836/storage.go:139-153 | with edges (A, B, m.reference), (A, C, m.reference) and (A, D, m.reply), where B is stored twice, the lookups give [B, C] for m.reference, [D] for m.reply and [] for an unknown type |

## Left out

- `NewDatabase`, `newPostgresDatabase` and `newSQLiteDatabase` (`storage.go:31-122`): opening the connection, running the DDL and preparing the statements are database I/O. Only the table semantics they fix are modelled. The constructor stands for freshly created tables; reopening existing tables is not modelled. The two engines differ in conflict syntax (the edge insert names its conflict target only for SQLite, `storage.go:107`, not for Postgres, `storage.go:64`), in the writer (`storage.go:40`, `storage.go:83`), and in the Postgres DDL naming its unique constraint `msc2836_edges`, the table's own name (`storage.go:51`); in PostgreSQL that name is likely to clash with the table. Schema creation is not modelled.
- `sqlutil.Writer` (exclusive or dummy) and the transaction around the two inserts: the writer is library code that is not part of this model. `StoreRelation` applies both inserts as one atomic step. Concurrent callers are modelled as a serialised sequence of calls (`Replay`).
- Storage faults, `context` cancellation and `rows.Scan` errors: these are engine behaviour. The model's `StoreRelation` has no error result, because its error is always nil when the engine does not fail; for the same reason `ChildrenForParent` has no error result. A fault and the rollback it causes are not modelled. The scan loop (`storage.go:145-152`) never checks `rows.Err()`: a fault or a cancellation that ends `rows.Next()` early makes the source return the children read so far with a nil error, which the model, having no faults, does not show.
- Storage.DB.ChildrenForParent: returns the matches in edge-row insertion order. The source promises no order. The membership, no-duplicates and empty-result ensures clauses do not depend on that choice of order. When nothing matches, the source returns a nil slice (`var children []string` is never appended to, `storage.go:144-153`); the model's `[]` stands for both a nil and an empty slice.
- JSON decoding (`encoding/json`) and the `HeaderedEvent` accessors: foreign code. Content is an abstract "does not decode, or decodes with optional fields" value. An absent or null field reads as the empty string.
- `Timestamp` is an unsigned 64-bit value. The SQL driver's rejection of values at or above 2^63 for the `BIGINT` column is a storage fault, and is not modelled.
