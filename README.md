# MemoryDB: a verified model of the knowledge-graph memory store

This project models the `MemoryDB` class of `execution/memory_ops.py`. The class is a
small SQLite store with four tables:

- `entities`: names are UNIQUE.
- `observations`: each is owned by one entity.
- `relations`: typed, directed edges between entities. The triple (from, to, type) is UNIQUE.
- `directive_runs`: the run history of directives. `status` is checked against
  `started`, `success`, `failed` and `partial`.

The class offers operations that create and delete rows, log runs, list runs, search and
read the whole graph.

The model has three layers:

- The tables are sequences of rows. They sit in the fields of the class
  `MemoryOps.MemoryDB`, next to the four AUTOINCREMENT counters and a logical clock.
- Every mutator is a method with `modifies this`. Each one is a single committed transaction.
  Its postcondition states the whole new state, and it preserves `Valid()`.
  `Valid()` is the set of schema constraints `init_schema` creates (`MemoryOps.EntitiesValid`,
  `ObservationsValid`, `RelationsValid`, `RunsValid`):
  - distinct ids that stay below their counter;
  - unique names and unique relation triples;
  - every observation and relation refers to a live entity;
  - every status passes the CHECK;
  - every stored time is earlier than the clock.
- Every reader is a function of the tables (module `Queries`). Being functions, the readers
  are read-only and return the same answer on an unchanged store.
  - SQL joins are modelled as joins: a row meets every matching row of the other table.
  - `ORDER BY ... DESC` is a stable sort, largest key first.
  - `LIMIT` takes a prefix.
  - `LIKE` is SQLite's matcher (module `SqlLike`): `%`, `_` and ASCII case folding.
    `SqlLike.PatternIsContains` proves that for a query with no wildcards, the search pattern
    `%query%` is an ASCII case-insensitive substring test.

Other facts of the model:

- Errors are values of `Records.Error`. For every error the source reports as a dictionary,
  `Error.Message()` gives the text of that dictionary's `error` entry.
  - The engine's IntegrityError for a status outside the CHECK has no error dictionary in
    the source; the exception escapes the method. It is modelled as the error `StatusRejected`,
    with the tables unchanged. Its `Message()` text is the model's own wording, not a string
    the source or the engine produces.
- `CURRENT_TIMESTAMP` is a logical clock. Every INSERT or UPDATE statement stamps its rows with
  the clock and then advances it. `log_run` stamps `started_at` and `ended_at` in one statement,
  so the two are equal.
  - Real timestamps have one-second resolution and can tie. So every ordering property of the
    readers is stated as non-increasing, and none depends on how ties are broken. The one
    exception is the scenario `Scenarios.RunHistory` (see "## Left out").
- Module `Visibility` proves the property about dangling rows described under "## Findings".

Where the repository's description of the store and its code disagree, the model follows the code:

- A duplicate relation (same endpoints, same type) is rejected with `Relation already exists`, not
  permitted (`execution/memory_ops.py:81`, `:238-239`).
- `log_run_end` edits an existing run in place: status, `ended_at`, notes, error message, output
  summary. It also reports success when no run has the id; an UPDATE that matches nothing is
  not an error.
- `get_entity` on a missing name returns None. It is not an error.
- `get_runs` skips its directive and status filters when they are None or empty, and it lists
  runs of every directive when none is given.

## Model

| member | source | states |
|---|---|---|
| MemoryOps.MemoryDB.constructor | execution/memory_ops.py:46-98 | `init_schema` on a fresh file: four empty tables, all counters at 1, and every schema constraint holds |
| MemoryOps.MemoryDB.CreateEntity | execution/memory_ops.py:114-134 | an existing name gives `EntityExists` and leaves every table unchanged; otherwise exactly one entity with the fresh id is appended, followed by one observation per string, owned by that id with consecutive fresh ids; the constraints are kept |
| MemoryOps.InsertObservations | execution/memory_ops.py:124-129 | the insert loop appends one observation per string: id `firstId + k`, owned by `owner`, with the k-th content; ids stay distinct and below the advanced counter |
| MemoryOps.CreateKeepsValid | execution/memory_ops.py:51-69 | a fresh id and an unused name keep entity keys and names unique, and every observation is still owned by a live entity |
| MemoryOps.MemoryDB.DeleteEntity | execution/memory_ops.py:180-187 | a missing name gives `EntityNotFound` with nothing changed; otherwise the entity row goes, together with exactly its observations and the relations touching it; every other row stays and the constraints are kept |
| MemoryOps.CascadeKeepsValid | execution/memory_ops.py:67-80 | after the cascade the remaining entities are the old ones minus the deleted one, and every remaining observation and relation refers only to remaining entities |
| MemoryOps.NameGoneAfterDelete | execution/memory_ops.py:136-168 | once the entities row of a name is gone, `get_entity` of it is None, no edge listed for another entity leads to it, and no `read_graph` relation names it |
| MemoryOps.MemoryDB.AddObservation | execution/memory_ops.py:191-204 | a missing entity gives `EntityNotFound` with nothing changed; otherwise exactly one observation with the fresh id is appended, owned by that entity's id; the entity rows are untouched |
| MemoryOps.MemoryDB.DeleteObservation | execution/memory_ops.py:206-213 | a missing id gives `ObservationNotFound` with nothing changed; otherwise exactly one row, the one with that id, is removed |
| MemoryOps.MemoryDB.CreateRelation | execution/memory_ops.py:217-239 | a missing from- or to-name gives `EntityNotFound` for that name; an existing (from, to, type) triple gives `RelationExists`; both leave the tables unchanged; otherwise exactly one relation is appended and entities and observations are unchanged |
| MemoryOps.MemoryDB.LogRunStart | execution/memory_ops.py:243-251 | appends one run in status `started`, with the given input summary, and returns its fresh id; nothing else changes |
| MemoryOps.MemoryDB.LogRunEnd | execution/memory_ops.py:253-264 | no run with the id: success and nothing changes; a status outside the CHECK: `StatusRejected` with nothing changed; otherwise the runs table becomes `EndRuns` of the old one, and no other table changes |
| MemoryOps.EndRuns | execution/memory_ops.py:257-262 | the UPDATE keeps the table's length, every row's id, directive, start time and input summary, and every row with another id; every row with the id gets the new status, end time, notes, error message and output summary; with no such row the table is unchanged; run ids stay distinct |
| MemoryOps.EndRunsLastWins | execution/memory_ops.py:253-264 | a second `log_run_end` on the same run, with its own later stamp and values, leaves the table as if only the second call had run: it overwrites every column the first one set |
| MemoryOps.MemoryDB.LogRun | execution/memory_ops.py:266-277 | a status outside the CHECK gives `StatusRejected` with nothing changed; otherwise exactly one run is appended, started and ended at the same stamp, and no existing run changes |
| MemoryOps.NewRunIsListed | execution/memory_ops.py:279-296 | a run that matches the filters and is stamped later than every stored run is among the runs `get_runs` returns, for any positive limit |
| Records.Error.Message | execution/memory_ops.py:133-239 | the text of each error dictionary (`:134`, `:187`, `:197`, `:213`, `:224`, `:229`, `:239`): an entity error is `Entity '`, then the name, then `' already exists` or `' not found`; the observation error is `Observation `, then the id in decimal, then ` not found`; the relation error is `Relation already exists` |
| Records.MessageIdentifiesError | execution/memory_ops.py:133-239 | two errors with the same message are the same error, name and id included, apart from the model's own `StatusRejected` text |
| Records.NatDecimalInjective | execution/memory_ops.py:213 | different observation ids are written as different decimal strings |
| Queries.FindByName | execution/memory_ops.py:140-143 | the lookup by name returns an entity with that name, or None exactly when no entity has it |
| Queries.FindByNameUnique | execution/memory_ops.py:54 | with names UNIQUE, the lookup returns exactly the entity that has the name |
| Queries.NamesWithId | execution/memory_ops.py:154-156 | a join on `entities.id` yields exactly the names of the entities with that id |
| Queries.NamesWithIdUnique | execution/memory_ops.py:53 | with ids a PRIMARY KEY, a join on an id meets one row if the id is live and none otherwise |
| Queries.Outgoing | execution/memory_ops.py:152-159 | the outgoing edges are exactly the relations from the id, joined with the names of their targets |
| Queries.Incoming | execution/memory_ops.py:161-168 | the incoming edges are exactly the relations to the id, joined with the names of their sources |
| Queries.GetEntity | execution/memory_ops.py:136-178 | None exactly when no entity has the name; otherwise that entity, exactly its observations, and exactly its outgoing and incoming edges |
| Queries.Recent | execution/memory_ops.py:292-293 | `ORDER BY started_at DESC LIMIT n` returns min(n, number matching) runs, all matching and drawn from the table, in non-increasing start order; every matching run left out started no later than every run returned |
| Queries.GetRuns | execution/memory_ops.py:279-296 | at most `limit` runs; each matches the directive and status filters that are set; start times are non-increasing; every matching stored run is returned or started no later than every returned one |
| Queries.ObservationHits | execution/memory_ops.py:313-317 | the hits are exactly the observations whose content matches, each paired with the name of a live owner |
| Queries.Search | execution/memory_ops.py:300-328 | exactly the entities whose name or type matches `%query%`; exactly the matching observations of live entities, with their owner's name; and at most 20 runs whose directive, notes or error message match (a NULL column never matches), newest first, with every matching run left out started no later than the ones returned |
| Queries.SearchIsSubstringSearch | execution/memory_ops.py:303-325 | for a query without `%` or `_`: the entities and observation hits are exactly those holding the query as an ASCII case-insensitive substring; every returned run holds it in its directive, notes or error message; every run that holds it and is not returned started no later than every returned run |
| SqlLike.PatternIsContains | execution/memory_ops.py:303 | `%q%` LIKE t holds exactly when q occurs in t ignoring ASCII case, for q free of wildcards |
| Queries.JoinRelations | execution/memory_ops.py:337-342 | the double join yields exactly the relations with a live entity at each end, paired with their names |
| Queries.JoinRelationsCount | execution/memory_ops.py:337-343 | with unique entity ids, the join has one row per relation whose two endpoints exist |
| Queries.ReadGraph | execution/memory_ops.py:330-360 | all entities (the same multiset), in non-increasing creation order; exactly the relation rows of the join; `entity_count`, `relation_count`, `observation_count` and `directive_runs_count` equal the sizes |
| Queries.ReadGraphRelationCount | execution/memory_ops.py:337-356 | `relation_count` is the number of relations whose two endpoints exist |
| Visibility.JoinHidesOrphans | execution/memory_ops.py:337-342 | relations touching an id no entity holds add no row to the `read_graph` join |
| Visibility.OutgoingHidesOrphans | execution/memory_ops.py:153-158 | such relations add no outgoing edge to any live entity |
| Visibility.IncomingHidesOrphans | execution/memory_ops.py:162-167 | such relations add no incoming edge to any live entity |
| Visibility.HitsHideOrphans | execution/memory_ops.py:313-317 | observations owned by an id no entity holds add no search hit |
| Visibility.OwnedIgnoresOrphans | execution/memory_ops.py:146-149 | dropping such observations does not change a live entity's observation list |
| Visibility.GetEntityHidesOrphans | execution/memory_ops.py:136-178 | `get_entity` returns the same with or without the dangling rows |
| Visibility.SearchHidesOrphans | execution/memory_ops.py:300-328 | `search` returns the same with or without the dangling observations |
| Visibility.ReadGraphHidesOrphans | execution/memory_ops.py:330-360 | `read_graph` returns the same entities, relations and counts with or without the dangling rows, except `observation_count` |
| Visibility.CascadeIsInvisible | execution/memory_ops.py:180-187 | after an entity row is deleted, `get_entity`, `search` and the `read_graph` relations are the same whether or not the cascade also removed its rows |
| Visibility.FreshEntityAdoptsNoRelation | execution/memory_ops.py:53 | an entity with a fresh AUTOINCREMENT id, one no relation refers to, adds no row to the relation join |
| Visibility.FreshEntityAdoptsNoObservation | execution/memory_ops.py:53 | such an entity adopts no leftover observation in search |
| Visibility.RowOnlyDeleteKeepsObservationDeletable | execution/memory_ops.py:206-213 | with foreign keys off, `delete_observation` on a leftover observation's id still finds the row and succeeds, where after the cascade it reports `ObservationNotFound` |
| Visibility.RowOnlyDeleteLeavesOrphans | execution/memory_ops.py:40 | with foreign keys off, deleting the entities row alone leaves an observation with no owner, and `read_graph` still counts it |
| Scenarios.EntityLifecycle | execution/memory_ops.py:114-187 | on a fresh store: `api_x` is created with id 1; `get_entity` shows it with exactly its one observation; deleting it succeeds; `get_entity` is then None |
| Scenarios.RunHistory | execution/memory_ops.py:266-296 | on a fresh store, after a `success` run and then a `failed` one of `scrape`, `get_runs` for `scrape` with limit 5 returns both, the failed one first |

## Left out

- The command-line interface (`execution/memory_ops.py:363-483`) is presentation only. This
  includes argument parsing, JSON printing and command dispatch. Its restriction of the status
  choices is covered because a bad status gives the error `StatusRejected`.
- Connecting, `row_factory`, `close` and `DB_PATH` (`:32`, `:38-44`) are file I/O. Each method
  is one atomic step on in-memory tables.
- The string `init_schema` returns names a file path, and that is not modelled.
  - Its `CREATE ... IF NOT EXISTS` is a no-op on an existing store, so the model has only
    the constructor for a fresh one.
- The indexes (`:101-107`) have no effect on results.
- Wall-clock time is not modelled. The logical clock stands in for it, so the model shows no
  ties between timestamps.
- Engine failures other than the status CHECK are not modelled: I/O errors, locking and
  concurrent writers.
- Queries.GetRuns: requires `limit >= 0`. A negative `LIMIT`, which SQLite reads as "no limit",
  is excluded.
- Observation order inside `get_entity`, the order of rows from a join, and the order among
  runs with equal start times are not stated. The SQL leaves them open, so the model keeps
  table order and no contract depends on it.
- Integers are unbounded. SQLite's 64-bit row ids and rowid exhaustion are not modelled.
- Scenarios.RunHistory: its "failed first" rests on the logical clock stamping the two
  `log_run` calls 0 and 1. In the source both calls can get the same one-second
  `started_at`, and `ORDER BY started_at DESC` (`:292`) then leaves their order open; the
  model's stable sort would list the earlier run first on such a tie.

## Findings

| source | as written | input that shows it | evidently intended | confidence | as-written member | corrected member |
|---|---|---|---|---|---|---|
| execution/memory_ops.py:40 | the connection never runs `PRAGMA foreign_keys = ON`, so the `ON DELETE CASCADE` of `:67` and `:79-80` never fires and `delete_entity` removes the entities row only | create entity `a` with one observation, then `delete_entity("a")`: the observation stays, owned by no entity; `read_graph` still reports `observation_count` 1, and `delete_observation(1)` still succeeds | `delete_entity` removes the entity's observations and every relation touching it, as its docstring at `:181` and the schema say | high (not executed) | Visibility.RowOnlyDeleteLeavesOrphans | MemoryOps.MemoryDB.DeleteEntity |

The rest of the model uses the corrected `DeleteEntity`, which performs the cascade explicitly.
`Visibility.CascadeIsInvisible` shows why the defect mostly goes unnoticed:

- The readers reach observations and relations either through an inner join on `entities.id`
  (the edges of `get_entity`, the hits of `search`, the relations of `read_graph`), or by the
  id of an entity just found by name (the observation list of `get_entity`, `:146-149`).
- AUTOINCREMENT never reuses an id (`Visibility.FreshEntityAdoptsNoRelation`,
  `FreshEntityAdoptsNoObservation`), so neither way meets a dangling row.

Two statements use neither way, and there the dangling rows show, as written:

- `read_graph`'s plain `COUNT(*)` (`:345`) still counts them in `observation_count`
  (`Visibility.RowOnlyDeleteLeavesOrphans`).
- `delete_observation` (`:209`) deletes by id alone, so on a leftover observation it succeeds,
  where after the cascade it reports `Observation ... not found`
  (`Visibility.RowOnlyDeleteKeepsObservationDeletable`).
