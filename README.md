# Namespace resolution in the MySQL persistence layer

This project models `database/mysql/namespace.go` of Clair's MySQL backend. A
namespace is a record with a unique name and a store-generated integer id. The
file has three operations:

- `insertNamespaceWithTransaction` and `insertNamespace` resolve a name to its
  id. They reject an empty name. They consult an optional cache under the key
  `"namespace:" + name`, counting cache queries and hits. On a miss they run the
  insert statement. If the insert reports a zero generated id, they fall back to
  a lookup by name. Any store failure is returned as an error tagged with the
  operation's name. On success they add the id to the cache. The two functions
  differ only in which executor runs the statements: the caller's transaction or
  the default connection.
- `ListNamespaces` accumulates one namespace per row of the listing query.

The model has three modules:

- `Store` (store.dfy) is the executor. Class `Executor` holds the store's
  name→id table and counts its insert and lookup calls. What the insert reports
  is an oracle `onInsert(table, name)`: the statement failed, `LastInsertId`
  failed, or a generated id. Whether the lookup faults is an oracle
  `lookupFault(name)`. The model's own choice is that the insert writes the row
  `name -> id` exactly when it reports a non-zero id. A missing row makes the
  lookup fail, as `sql.ErrNoRows` does.
- `Namespaces` (namespace.dfy) holds the resolver and the enumerator.
  `Resolve` is the resolver as a pure transition: from the name, the cache, the
  table and the executor's oracles it gives the returned id and error, the new
  cache and table, and the increment of every counter. Class `MySQL` has the
  cache (`None` when none is configured), three counters and the default
  executor. Both resolver methods are proved to perform exactly the `Resolve`
  transition, through the two-state predicate `MySQL.Resolved`. So the two
  variants have the same results and the same state changes for the same
  executor behaviour. The lemmas about `Resolve` state what happens on each path.
- `Wrappers` (wrappers.dfy) holds `Option`.

On a failed scan or a trailing cursor error, `ListNamespaces` returns the
namespaces gathered so far together with the error (namespace.go:115, 121). It
does not discard them.

## Model

| member | source | states |
|---|---|---|
| `Namespaces.Resolve` | database/mysql/namespace.go:24-62 | the resolver as a transition function; the resolver methods and the lemmas below are stated against it. Its own contract: the timing observation goes with the insert, a fallback lookup follows only an insert, a hit is always also a query, a hit and an insert never occur together, and an error result has id 0 with cache and table unchanged |
| `Namespaces.KeyShape` | database/mysql/namespace.go:31 | the cache key of a name is the prefix `namespace:` followed by the name |
| `Namespaces.CacheAdd` | database/mysql/namespace.go:56-58 | `cache.Add` when a cache exists: the name's key maps to the id, the key set gains only that key, every other entry is unchanged; no cache stays no cache |
| `Store.Lookup` | database/mysql/namespace.go:51 | the lookup succeeds exactly when the store does not fault and holds the name, and then gives the table's id |
| `Store.AfterInsert` | database/mysql/namespace.go:41 | the store's table after the insert: it maps the name to a non-zero generated id; every other row is unchanged and none is added |
| `Namespaces.KeyInjective` | database/mysql/namespace.go:31 | the cache key `"namespace:" + name` identifies the name: two keys are equal exactly when the names are |
| `Namespaces.CacheAddCoherent` | database/mysql/namespace.go:56-58 | adding `name -> id` to the cache, when the table holds `name -> id`, keeps every cached id in agreement with the table |
| `Namespaces.ResolveEmptyName` | database/mysql/namespace.go:25-27 | an empty name returns id 0 with a bad-request error; cache, table, counters and executor calls are unchanged |
| `Namespaces.ResolveCacheHit` | database/mysql/namespace.go:29-34 | with a cache holding the name's key, the cached id is returned with no error; one query and one hit are counted; there is no store call, no timing observation and no change to cache or table |
| `Namespaces.ResolveCacheMiss` | database/mysql/namespace.go:29-41 | on a miss or without a cache: a query is counted exactly when a cache exists, no hit is counted, one insert is issued and one timing observation is recorded on every outcome |
| `Namespaces.ResolveGeneratedId` | database/mysql/namespace.go:45-50 | a non-zero generated id is returned without error and no fallback lookup is issued |
| `Namespaces.ResolveFallback` | database/mysql/namespace.go:50-55 | a zero generated id leads to exactly one lookup; the result is the stored id if the row exists and the lookup does not fault, otherwise id 0 with an error tagged `soiNamespace` |
| `Namespaces.ResolveFailure` | database/mysql/namespace.go:42-54 | every error result has id 0 and leaves cache and table unchanged; for every resolution, the result is a bad request exactly for the empty name, an `insertNamespace` failure exactly when the insert was issued and the statement or `LastInsertId` failed, and a `soiNamespace` failure exactly when the fallback lookup was issued and found no row or faulted |
| `Namespaces.ResolveSuccessCaches` | database/mysql/namespace.go:56-60 | on success with a cache, the name's key maps to the returned id afterwards, no other key is added and every other entry is unchanged |
| `Namespaces.ResolveKeepsCoherence` | database/mysql/namespace.go:41-60 | if every cached id agreed with the store's table before a resolution, it still does afterwards |
| `Namespaces.ResolveNonZero` | database/mysql/namespace.go:45-55 | with a coherent cache and a table of non-zero ids, a successful resolution returns a non-zero id and the table keeps only non-zero ids |
| `Namespaces.ResolveExistingRow` | database/mysql/namespace.go:41-58 | if the table already holds the name, the cache does not, the store's insert of that name reports zero and the lookup does not fault, then exactly one insert and one lookup are issued and the existing id is returned and cached |
| `Namespaces.ResolveSuccessStored` | database/mysql/namespace.go:41-60 | with a coherent cache, after a successful resolution the store's table maps the name to the returned id |
| `Namespaces.ResolveIdempotent` | database/mysql/namespace.go:29-60 | from a coherent start, resolving again after a success and after any eviction returns the same id without error. If the cache kept the name's key, the second call is a hit with no store call and no timing observation. Otherwise this needs an insert-if-absent store whose lookup of the name does not fault |
| `Namespaces.EvictKeepsCoherence` | database/mysql/namespace.go:29-31 | removing any set of keys from the cache, as the bounded cache's own eviction may, keeps it in agreement with the table |
| `Namespaces.MySQL.InsertNamespaceWithTransaction` | database/mysql/namespace.go:24-62 | the returned id and error, the new cache, the executor's table, all three counters and the executor's call counts are exactly those `Resolve` gives for the old state; a coherent cache stays coherent |
| `Namespaces.MySQL.InsertNamespace` | database/mysql/namespace.go:64-101 | the same postcondition as `InsertNamespaceWithTransaction`, with the default connection as the executor |
| `Namespaces.MySQL.ListNamespaces` | database/mysql/namespace.go:103-125 | a failed query gives no namespaces and an error `listNamespace`; otherwise the result is one namespace per row in row order; the first failing scan stops it with the earlier rows and an error `listNamespace.Scan()`; when all rows scan, the error is `listNamespace.Rows()` exactly if the cursor reports a trailing error; the cache is never touched |
| `Store.Executor.Exec` | database/mysql/namespace.go:41-49 | the insert's reply is the oracle's for the old table; the table gains `name -> id` exactly for a non-zero generated id; one insert call is counted |
| `Store.Executor.QueryRowScan` | database/mysql/namespace.go:51 | the lookup gives the table's id for the name, or nothing if the row is missing or the store faults; one lookup call is counted |

## Left out

- The SQL text of `insertNamespace`, `soiNamespace` and `listNamespace` and the MySQL driver are not modelled. They are defined outside namespace.go. Insert-if-absent is only a hypothesis (`InsertIfAbsent`) of the lemmas that need it.
- Store.AfterInsert: the table is a map, so names are unique. An insert that reports a non-zero id for a name already in the table overwrites that row's id. A real store with a uniqueness constraint and ids fixed once set never reports that. Cache coherence (`ResolveKeepsCoherence`, `ResolveSuccessStored`, `ResolveIdempotent`) relies on this choice. If an existing row kept its old id instead, a non-zero reply would leave the cache disagreeing with the table.
- Store.Executor.Exec: when `LastInsertId` fails after the statement succeeded, the model leaves the table unchanged. The real store may already hold the new row.
- The bounded cache's eviction policy is not modelled. The cache is a plain map. `EvictKeepsCoherence` covers arbitrary removals between calls.
- The `id.(int)` type assertion on cached values is not modelled. The cache is typed `string → int`.
- The `int64` to `int` narrowing at line 49 is not modelled. Ids are mathematical integers.
- Prometheus labels and `time.Now()` durations are reduced to plain counters. The model counts cache queries, cache hits and query-time observations.
- Error messages built by `handleError` and the bad-request constructor are not modelled. Errors are kinds: bad request, or store failure with its operation name.
- Namespaces.MySQL.ListNamespaces: takes the executor's reply to the listing query as a parameter instead of calling an executor. `rows.Close` is not modelled; the loop exits on every path.
- Concurrency between callers and transaction semantics are not modelled. Each call is one atomic step over the cache and the executor.
- Cache coherence is proved per executor, but both variants share one cache. A resolution on a transaction adds to that cache an id that only the transaction's table holds. If the transaction rolls back, the entry is stale.
