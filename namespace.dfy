/** Namespace records of the MySQL persistence layer
    (database/mysql/namespace.go): the cached insert-or-get resolver that maps a
    namespace name to its id, and the enumeration of all namespaces.

    `Resolve` is the resolver as a transition: from the name, the cache, the
    store's table and the executor's behaviour it gives the returned id and
    error, the new cache and table, and how much each counter and each executor
    call count grows. Both resolver methods of `MySQL` are proved to perform
    exactly that transition, and the lemmas below state what it does on each
    path. */
module Namespaces {
  import opened Wrappers
  import opened Store

  datatype Namespace = Namespace(id: int, name: string)

  /** Errors as kinds: invalid input, or a store failure tagged with the name of
      the failing operation, which is all `handleError` keeps of use here. */
  datatype Error = BadRequest | StoreFailure(op: string)

  const OpInsert := "insertNamespace"
  const OpLookup := "soiNamespace"
  const OpList := "listNamespace"
  const OpListScan := "listNamespace.Scan()"
  const OpListRows := "listNamespace.Rows()"

  /** The resolver's cache: `None` when no cache is configured. */
  type Cache = Option<map<string, int>>

  const KeyPrefix := "namespace:"

  /** The cache key of a namespace name. */
  function Key(name: string): (k: string)
  {
    KeyPrefix + name
  }

  /** A key is the prefix `namespace:` followed by the name itself. */
  lemma KeyShape(name: string)
    ensures |Key(name)| == |KeyPrefix| + |name|
    ensures Key(name)[..|KeyPrefix|] == KeyPrefix && Key(name)[|KeyPrefix|..] == name
  {
  }

  /** Distinct names have distinct cache keys. */
  lemma KeyInjective(a: string, b: string)
    ensures Key(a) == Key(b) <==> a == b
  {
    KeyShape(a);
    KeyShape(b);
  }

  /** `cache.Add("namespace:"+name, id)` when a cache is configured. */
  function CacheAdd(cache: Cache, name: string, id: int): (c: Cache)
    ensures c.Some? <==> cache.Some?
    ensures c.Some? ==> c.value.Keys == cache.value.Keys + {Key(name)} && c.value[Key(name)] == id
    ensures c.Some? ==> forall k :: k in cache.value && k != Key(name) ==> c.value[k] == cache.value[k]
  {
    match cache
    case None => None
    case Some(m) => Some(m[Key(name) := id])
  }

  /** Every cached id agrees with the store's table. */
  ghost predicate Coherent(cache: Cache, rows: Rows)
  {
    cache.Some? ==>
      forall n :: Key(n) in cache.value ==> n in rows && cache.value[Key(n)] == rows[n]
  }

  /** Adding `name -> id` to the cache and to the table keeps them in agreement. */
  lemma CacheAddCoherent(cache: Cache, rows: Rows, name: string, id: int)
    requires Coherent(cache, rows)
    ensures Coherent(CacheAdd(cache, name, id), rows[name := id])
  {
    if cache.Some? {
      var m := cache.value[Key(name) := id];
      forall n | Key(n) in m
        ensures n in rows[name := id] && m[Key(n)] == rows[name := id][n]
      {
        KeyInjective(n, name);
      }
    }
  }

  /** The outcome of one resolution: what is returned, the new cache and table,
      and the increments of the cache-query, cache-hit and query-time counters
      and of the executor's insert and lookup call counts. */
  datatype Resolution = Resolution(
    id: int, err: Option<Error>,
    cache: Cache, rows: Rows,
    queried: nat, hits: nat, observed: nat,
    execs: nat, lookups: nat)

  /** The resolver (namespace.go:24-62, and 64-101 on the default connection).
      On every path the timing observation goes with the insert, a hit is
      always also a query, at most one of each is counted, and a fallback
      lookup only follows an insert. */
  function Resolve(name: string, cache: Cache, rows: Rows,
                   onInsert: (Rows, string) -> Insertion, lookupFault: string -> bool): (r: Resolution)
    ensures r.observed == r.execs <= 1 && r.lookups <= r.execs
    ensures r.hits <= r.queried <= 1 && r.hits + r.execs <= 1
    ensures r.err.Some? ==> r.id == 0 && r.cache == cache && r.rows == rows
  {
    if name == "" then
      Resolution(0, Some(BadRequest), cache, rows, 0, 0, 0, 0, 0)
    else if cache.Some? && Key(name) in cache.value then
      Resolution(cache.value[Key(name)], None, cache, rows, 1, 1, 0, 0, 0)
    else
      var queried := if cache.Some? then 1 else 0;
      match onInsert(rows, name)
      case ExecFailed =>
        Resolution(0, Some(StoreFailure(OpInsert)), cache, rows, queried, 0, 1, 1, 0)
      case LastIdFailed =>
        Resolution(0, Some(StoreFailure(OpInsert)), cache, rows, queried, 0, 1, 1, 0)
      case Generated(lastId) =>
        if lastId != 0 then
          Resolution(lastId, None, CacheAdd(cache, name, lastId), rows[name := lastId],
                     queried, 0, 1, 1, 0)
        else
          match Lookup(rows, name, lookupFault(name))
          case None =>
            Resolution(0, Some(StoreFailure(OpLookup)), cache, rows, queried, 0, 1, 1, 1)
          case Some(id) =>
            Resolution(id, None, CacheAdd(cache, name, id), rows, queried, 0, 1, 1, 1)
  }

  /** An empty name is a bad request, and nothing is touched. */
  lemma ResolveEmptyName(cache: Cache, rows: Rows,
                         onInsert: (Rows, string) -> Insertion, lookupFault: string -> bool)
    ensures Resolve("", cache, rows, onInsert, lookupFault)
         == Resolution(0, Some(BadRequest), cache, rows, 0, 0, 0, 0, 0)
  {
  }

  /** A cache hit returns the cached id, counts one query and one hit, and makes
      no store call and no timing observation. */
  lemma ResolveCacheHit(name: string, cache: Cache, rows: Rows,
                        onInsert: (Rows, string) -> Insertion, lookupFault: string -> bool)
    requires name != "" && cache.Some? && Key(name) in cache.value
    ensures var r := Resolve(name, cache, rows, onInsert, lookupFault);
      r.id == cache.value[Key(name)] && r.err == None &&
      r.cache == cache && r.rows == rows &&
      r.queried == 1 && r.hits == 1 && r.observed == 0 && r.execs == 0 && r.lookups == 0
  {
  }

  /** On a miss, or without a cache, a query is counted only if a cache exists,
      no hit is counted, one insert is issued and one timing observation is made,
      whatever the outcome. */
  lemma ResolveCacheMiss(name: string, cache: Cache, rows: Rows,
                         onInsert: (Rows, string) -> Insertion, lookupFault: string -> bool)
    requires name != "" && (cache.Some? ==> Key(name) !in cache.value)
    ensures var r := Resolve(name, cache, rows, onInsert, lookupFault);
      r.queried == (if cache.Some? then 1 else 0) && r.hits == 0 &&
      r.observed == 1 && r.execs == 1 && r.lookups <= 1
  {
  }

  /** A non-zero generated id is the result, with no fallback lookup. */
  lemma ResolveGeneratedId(name: string, cache: Cache, rows: Rows,
                           onInsert: (Rows, string) -> Insertion, lookupFault: string -> bool)
    requires name != "" && (cache.Some? ==> Key(name) !in cache.value)
    requires onInsert(rows, name).Generated? && onInsert(rows, name).lastId != 0
    ensures var r := Resolve(name, cache, rows, onInsert, lookupFault);
      r.id == onInsert(rows, name).lastId && r.err == None && r.lookups == 0
  {
  }

  /** A zero generated id falls back to exactly one lookup, whose result is the
      result: the stored id, or a failure tagged with the lookup's name. */
  lemma ResolveFallback(name: string, cache: Cache, rows: Rows,
                        onInsert: (Rows, string) -> Insertion, lookupFault: string -> bool)
    requires name != "" && (cache.Some? ==> Key(name) !in cache.value)
    requires onInsert(rows, name) == Generated(0)
    ensures var r := Resolve(name, cache, rows, onInsert, lookupFault);
      r.lookups == 1 && r.rows == rows &&
      (if !lookupFault(name) && name in rows
       then r.id == rows[name] && r.err == None
       else r.id == 0 && r.err == Some(StoreFailure(OpLookup)))
  {
  }

  /** Every failure returns id 0 and leaves the cache and the table unchanged.
      The error is a bad request exactly for the empty name, a failure of the
      insert exactly when the insert or `LastInsertId` failed, and a failure of
      the lookup exactly when the fallback lookup was issued and failed. */
  lemma ResolveFailure(name: string, cache: Cache, rows: Rows,
                       onInsert: (Rows, string) -> Insertion, lookupFault: string -> bool)
    ensures var r := Resolve(name, cache, rows, onInsert, lookupFault);
      (r.err.Some? ==> r.id == 0 && r.cache == cache && r.rows == rows) &&
      (r.err == Some(BadRequest) <==> name == "") &&
      (r.err == Some(StoreFailure(OpInsert)) <==>
         name != "" && r.execs == 1 && !onInsert(rows, name).Generated?) &&
      (r.err == Some(StoreFailure(OpLookup)) <==>
         name != "" && r.lookups == 1 && (lookupFault(name) || name !in rows))
  {
  }

  /** On success with a cache, the cache maps the name's key to the returned id
      afterwards and every other entry is as before. */
  lemma ResolveSuccessCaches(name: string, cache: Cache, rows: Rows,
                             onInsert: (Rows, string) -> Insertion, lookupFault: string -> bool)
    requires cache.Some?
    ensures var r := Resolve(name, cache, rows, onInsert, lookupFault);
      r.err.None? ==>
        r.cache.Some? && Key(name) in r.cache.value && r.cache.value[Key(name)] == r.id &&
        r.cache.value.Keys == cache.value.Keys + {Key(name)} &&
        forall k :: k in cache.value && k != Key(name) ==> r.cache.value[k] == cache.value[k]
  {
  }

  /** If every cached id agreed with the store's table before a resolution, it
      still does after. */
  lemma ResolveKeepsCoherence(name: string, cache: Cache, rows: Rows,
                              onInsert: (Rows, string) -> Insertion, lookupFault: string -> bool)
    requires Coherent(cache, rows)
    ensures var r := Resolve(name, cache, rows, onInsert, lookupFault);
      Coherent(r.cache, r.rows)
  {
    if name != "" && !(cache.Some? && Key(name) in cache.value) {
      var reply := onInsert(rows, name);
      if reply.Generated? {
        if reply.lastId != 0 {
          CacheAddCoherent(cache, rows, name, reply.lastId);
        } else if !lookupFault(name) && name in rows {
          CacheAddCoherent(cache, rows, name, rows[name]);
          assert rows[name := rows[name]] == rows;
        }
      }
    }
  }

  /** With a coherent cache and a table of non-zero ids, a successful resolution
      returns a non-zero id, and the table keeps only non-zero ids. */
  lemma ResolveNonZero(name: string, cache: Cache, rows: Rows,
                       onInsert: (Rows, string) -> Insertion, lookupFault: string -> bool)
    requires Coherent(cache, rows) && NonZeroIds(rows)
    ensures var r := Resolve(name, cache, rows, onInsert, lookupFault);
      (r.err.None? ==> r.id != 0) && NonZeroIds(r.rows)
  {
    if name != "" && cache.Some? && Key(name) in cache.value {
      assert name in rows;
    }
  }

  /** The store behaves as insert-if-absent: inserting a name that already has a
      row reports a zero id. This is a property of the SQL statement and the
      store, not of the resolver, so it is only ever assumed as a hypothesis. */
  ghost predicate InsertIfAbsent(onInsert: (Rows, string) -> Insertion)
  {
    forall rows: Rows, n: string :: n in rows ==> onInsert(rows, n) == Generated(0)
  }

  /** If the table already holds the name and the cache does not, the store's
      insert of it reports zero, and the lookup does not fault: one insert, one
      lookup, and the existing id is returned and cached. */
  lemma ResolveExistingRow(name: string, cache: Cache, rows: Rows,
                           onInsert: (Rows, string) -> Insertion, lookupFault: string -> bool)
    requires name != "" && name in rows && (cache.Some? ==> Key(name) !in cache.value)
    requires onInsert(rows, name) == Generated(0) && !lookupFault(name)
    ensures var r := Resolve(name, cache, rows, onInsert, lookupFault);
      r.execs == 1 && r.lookups == 1 && r.id == rows[name] && r.err == None &&
      r.rows == rows && r.cache == CacheAdd(cache, name, rows[name])
  {
  }

  /** What the bounded cache's own policy may do between two calls: drop any
      set of keys. */
  function Evict(cache: Cache, keys: set<string>): (c: Cache)
  {
    if cache.Some? then Some(cache.value - keys) else None
  }

  /** The bounded cache may evict entries at any time; an eviction keeps the
      cache in agreement with the table. */
  lemma EvictKeepsCoherence(cache: Cache, rows: Rows, keys: set<string>)
    requires Coherent(cache, rows)
    ensures Coherent(Evict(cache, keys), rows)
  {
  }

  /** With a coherent cache, a successful resolution leaves the table mapping
      the name to the returned id. */
  lemma ResolveSuccessStored(name: string, cache: Cache, rows: Rows,
                             onInsert: (Rows, string) -> Insertion, lookupFault: string -> bool)
    requires Coherent(cache, rows)
    ensures var r := Resolve(name, cache, rows, onInsert, lookupFault);
      r.err.None? ==> name in r.rows && r.rows[name] == r.id
  {
  }

  /** Resolving a name a second time, from the state the first successful
      resolution left after any eviction, returns the same id without error.
      When the cache still holds the name's key, the second call is a hit and
      makes no store call; otherwise the store must be insert-if-absent with a
      lookup of the name that does not fault. */
  lemma ResolveIdempotent(name: string, cache: Cache, rows: Rows,
                          onInsert: (Rows, string) -> Insertion, lookupFault: string -> bool,
                          keys: set<string>)
    requires Coherent(cache, rows)
    requires Resolve(name, cache, rows, onInsert, lookupFault).err.None?
    requires var first := Resolve(name, cache, rows, onInsert, lookupFault);
      (first.cache.Some? && Key(name) !in keys) || (InsertIfAbsent(onInsert) && !lookupFault(name))
    ensures var first := Resolve(name, cache, rows, onInsert, lookupFault);
      var second := Resolve(name, Evict(first.cache, keys), first.rows, onInsert, lookupFault);
      second.err.None? && second.id == first.id &&
      (first.cache.Some? && Key(name) !in keys ==>
         second.execs == 0 && second.lookups == 0 && second.hits == 1 && second.observed == 0)
  {
    var first := Resolve(name, cache, rows, onInsert, lookupFault);
    assert name != "";
    ResolveKeepsCoherence(name, cache, rows, onInsert, lookupFault);
    EvictKeepsCoherence(first.cache, first.rows, keys);
    ResolveSuccessStored(name, cache, rows, onInsert, lookupFault);
    var evicted := Evict(first.cache, keys);
    if evicted.Some? && Key(name) in evicted.value {
      assert evicted.value[Key(name)] == first.rows[name];
    } else {
      assert onInsert(first.rows, name) == Generated(0);
      ResolveExistingRow(name, evicted, first.rows, onInsert, lookupFault);
    }
  }

  /** One row of the listing cursor: a scanned `(id, name)` pair, or a row
      whose scan fails. */
  datatype RowResult = Row(id: int, name: string) | ScanErr

  /** What `Query(listNamespace)` gives: a failure, or a cursor over rows with
      the error `rows.Err()` reports once they are exhausted. */
  datatype QueryReply = QueryFailed | Cursor(rows: seq<RowResult>, iterErr: bool)

  class MySQL {
    /** The identifier cache, `None` when no cache is configured. */
    var cache: Cache
    /** The cache-query and cache-hit counters of the "namespace" label. */
    var cacheQueries: nat
    var cacheHits: nat
    /** Observations of the ("insertNamespace", "all") query-time series. */
    var queryTimeObservations: nat
    /** The default connection. */
    const db: Executor

    constructor (db: Executor, withCache: bool)
      ensures this.db == db && cache == (if withCache then Some(map[]) else None)
      ensures cacheQueries == 0 && cacheHits == 0 && queryTimeObservations == 0
    {
      this.db := db;
      cache := if withCache then Some(map[]) else None;
      cacheQueries, cacheHits, queryTimeObservations := 0, 0, 0;
    }

    /** This call returned `id` and `err` and changed this resolver and the
        executor `ex` exactly as `Resolve` prescribes. */
    twostate predicate Resolved(ex: Executor, name: string, id: int, new err: Option<Error>)
      reads this, ex
    {
      var r := Resolve(name, old(cache), old(ex.rows), ex.onInsert, ex.lookupFault);
      id == r.id && err == r.err && cache == r.cache && ex.rows == r.rows &&
      cacheQueries == old(cacheQueries) + r.queried &&
      cacheHits == old(cacheHits) + r.hits &&
      queryTimeObservations == old(queryTimeObservations) + r.observed &&
      ex.execCalls == old(ex.execCalls) + r.execs &&
      ex.lookupCalls == old(ex.lookupCalls) + r.lookups
    }

    /** `insertNamespaceWithTransaction`: resolve on the caller's executor. */
    method InsertNamespaceWithTransaction(queryer: Executor, namespace: Namespace)
      returns (id: int, err: Option<Error>)
      modifies this, queryer
      ensures Resolved(queryer, namespace.name, id, err)
      ensures Coherent(old(cache), old(queryer.rows)) ==> Coherent(cache, queryer.rows)
    {
      if Coherent(cache, queryer.rows) {
        ResolveKeepsCoherence(namespace.name, cache, queryer.rows, queryer.onInsert, queryer.lookupFault);
      }
      if namespace.name == "" {
        return 0, Some(BadRequest);
      }
      if cache.Some? {
        cacheQueries := cacheQueries + 1;
        if Key(namespace.name) in cache.value {
          cacheHits := cacheHits + 1;
          return cache.value[Key(namespace.name)], None;
        }
      }
      // The deferred query-time observation fires once on every return below.
      queryTimeObservations := queryTimeObservations + 1;
      var reply := queryer.Exec(namespace.name);
      if reply.ExecFailed? {
        return 0, Some(StoreFailure(OpInsert));
      }
      if reply.LastIdFailed? {
        return 0, Some(StoreFailure(OpInsert));
      }
      id := reply.lastId;
      if id == 0 {
        var found := queryer.QueryRowScan(namespace.name);
        if found.None? {
          return 0, Some(StoreFailure(OpLookup));
        }
        id := found.value;
      }
      if cache.Some? {
        cache := Some(cache.value[Key(namespace.name) := id]);
      }
      return id, None;
    }

    /** `insertNamespace`: the same resolution on the default connection. */
    method InsertNamespace(namespace: Namespace) returns (id: int, err: Option<Error>)
      modifies this, db
      ensures Resolved(db, namespace.name, id, err)
      ensures Coherent(old(cache), old(db.rows)) ==> Coherent(cache, db.rows)
    {
      if Coherent(cache, db.rows) {
        ResolveKeepsCoherence(namespace.name, cache, db.rows, db.onInsert, db.lookupFault);
      }
      if namespace.name == "" {
        return 0, Some(BadRequest);
      }
      if cache.Some? {
        cacheQueries := cacheQueries + 1;
        if Key(namespace.name) in cache.value {
          cacheHits := cacheHits + 1;
          return cache.value[Key(namespace.name)], None;
        }
      }
      // The deferred query-time observation fires once on every return below.
      queryTimeObservations := queryTimeObservations + 1;
      var reply := db.Exec(namespace.name);
      if reply.ExecFailed? {
        return 0, Some(StoreFailure(OpInsert));
      }
      if reply.LastIdFailed? {
        return 0, Some(StoreFailure(OpInsert));
      }
      id := reply.lastId;
      if id == 0 {
        var found := db.QueryRowScan(namespace.name);
        if found.None? {
          return 0, Some(StoreFailure(OpLookup));
        }
        id := found.value;
      }
      if cache.Some? {
        cache := Some(cache.value[Key(namespace.name) := id]);
      }
      return id, None;
    }

    /** `ListNamespaces`: one namespace per scanned row, in cursor order. The
        first failing scan stops the loop; the namespaces gathered before it are
        returned with the error, as they are when the cursor reports a trailing
        error. The cache is not consulted. */
    method ListNamespaces(query: QueryReply) returns (namespaces: seq<Namespace>, err: Option<Error>)
      ensures query.QueryFailed? ==> namespaces == [] && err == Some(StoreFailure(OpList))
      ensures query.Cursor? ==>
        |namespaces| <= |query.rows| &&
        (forall i :: 0 <= i < |namespaces| ==>
           query.rows[i] == Row(namespaces[i].id, namespaces[i].name)) &&
        (|namespaces| < |query.rows| ==>
           query.rows[|namespaces|] == ScanErr && err == Some(StoreFailure(OpListScan))) &&
        (|namespaces| == |query.rows| ==>
           err == if query.iterErr then Some(StoreFailure(OpListRows)) else None)
    {
      namespaces := [];
      if query.QueryFailed? {
        return namespaces, Some(StoreFailure(OpList));
      }
      var rows := query.rows;
      var i := 0;
      while i < |rows|
        invariant 0 <= i <= |rows| && |namespaces| == i
        invariant forall j :: 0 <= j < i ==> rows[j] == Row(namespaces[j].id, namespaces[j].name)
      {
        if rows[i].ScanErr? {
          return namespaces, Some(StoreFailure(OpListScan));
        }
        namespaces := namespaces + [Namespace(rows[i].id, rows[i].name)];
        i := i + 1;
      }
      if query.iterErr {
        return namespaces, Some(StoreFailure(OpListRows));
      }
      return namespaces, None;
    }
  }
}
