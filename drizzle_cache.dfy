/**
 * `DrizzleLRUCache`: the query-result cache handed to the ORM. It keeps the
 * cached results in a bounded LRU/TTL store and, beside it, a dependency
 * index from each table name to the cache keys read from that table, which
 * `OnMutate` uses to invalidate every result a write may have made wrong.
 *
 * Every method of the source is `async` but never awaits, so each runs to
 * completion; the class is modelled as sequential. The clock the store reads
 * is passed in as `now`.
 */
module DrizzleCache {
  import opened Wrappers
  import opened LruStore
  import opened TableIndex

  /** The class's own default TTL in milliseconds (`globalTtl`). */
  const GlobalTtl := 1000
  /** The store's capacity when the constructor is given none. */
  const DefaultMax := 5000

  /** The per-query cache options the ORM may pass to `put`: milliseconds (`px`) or seconds (`ex`). */
  datatype CacheConfig = CacheConfig(px: Option<int>, ex: Option<int>)

  /**
   * The TTL `put` stores an entry with: `px` whenever it is given (0
   * included), else `ex` seconds when `ex` is given and non-zero, else the
   * class's 1000 ms.
   */
  function ResolveTtl(config: Option<CacheConfig>): (ttl: int)
    ensures config.Some? && config.value.px.Some? ==> ttl == config.value.px.value
    ensures config.Some? && config.value.px.None? && config.value.ex.Some? && config.value.ex.value != 0 ==>
              ttl == config.value.ex.value * 1000
    ensures config.None? || (config.value.px.None? && (config.value.ex.None? || config.value.ex.value == 0)) ==>
              ttl == GlobalTtl
  {
    match config
    case None => GlobalTtl
    case Some(c) =>
      if c.px.Some? then c.px.value
      else if c.ex.Some? && c.ex.value != 0 then c.ex.value * 1000
      else GlobalTtl
  }

  /**
   * An `ex` of zero is falsy and counts as no `ex` at all rather than as zero
   * seconds, while a `px` of zero is used as given.
   */
  lemma ZeroExIsMissing(px: Option<int>)
    ensures ResolveTtl(Some(CacheConfig(px, Some(0)))) == ResolveTtl(Some(CacheConfig(px, None)))
    ensures ResolveTtl(Some(CacheConfig(Some(0), Some(5)))) == 0
  {
  }

  /**
   * The `tags` or `tables` argument of `onMutate`: missing, a single name, or
   * a list of names.
   */
  datatype Names = Missing | Single(name: string) | List(names: seq<string>)

  /**
   * The list `onMutate` iterates over: a list as given, a single name as a
   * one-element list, and a falsy argument (missing, or the empty string) as
   * the empty list.
   */
  function Normalise(p: Names): (r: seq<string>)
    ensures p.List? ==> r == p.names
    ensures p.Single? && p.name != "" ==> r == [p.name]
    ensures p.Missing? || p == Single("") ==> r == []
  {
    match p
    case Missing => []
    case Single(name) => if name == "" then [] else [name]
    case List(names) => names
  }

  /** Exactly the falsy arguments and the empty list normalise to no names. */
  lemma NormaliseEmptyIff(p: Names)
    ensures Normalise(p) == [] <==> p.Missing? || p == Single("") || p == List([])
  {
  }

  /** The keys `onMutate` deletes from the store: every named tag and every key recorded under a named table. */
  function Doomed(index: Index, tags: Names, tables: Names): (r: set<string>)
    ensures forall tag :: tag in Normalise(tags) ==> tag in r
    ensures forall t :: t in Normalise(tables) ==> Dependents(index, t) <= r
    ensures forall k :: k in r ==> k in Normalise(tags) || exists t :: t in Normalise(tables) && t in index && k in index[t]
  {
    Elements(Normalise(tags)) + CollectKeys(index, Normalise(tables))
  }

  /** With no tags and no tables, `onMutate` deletes nothing and clears nothing. */
  lemma EmptyMutateIsNoOp<V>(s: Store<V>, index: Index, tags: Names, tables: Names)
    requires s.Valid()
    requires Normalise(tags) == [] && Normalise(tables) == []
    ensures s.DeleteMany(Doomed(index, tags, tables)) == s
    ensures ClearTables(index, Normalise(tables)) == index
  {
    assert Doomed(index, tags, tables) == {};
    DeleteAbsent(s, {});
  }

  /** A second identical `onMutate` deletes nothing further and leaves the index as the first one left it. */
  lemma MutateTwiceIsMutateOnce<V>(s: Store<V>, index: Index, tags: Names, tables: Names)
    requires s.Valid()
    ensures var s1 := s.DeleteMany(Doomed(index, tags, tables));
            var index1 := ClearTables(index, Normalise(tables));
            && s1.DeleteMany(Doomed(index1, tags, tables)) == s1
            && ClearTables(index1, Normalise(tables)) == index1
  {
    var s1 := s.DeleteMany(Doomed(index, tags, tables));
    var index1 := ClearTables(index, Normalise(tables));
    CollectAfterClear(index, Normalise(tables));
    assert Doomed(index1, tags, tables) == Elements(Normalise(tags));
    DeleteAbsent(s1, Elements(Normalise(tags)));
    ClearIdempotent(index, Normalise(tables));
  }

  /**
   * Every key in `keys` is recorded under every table in its `deps` entry
   * (memberships of keys outside `keys` may be stale).
   */
  ghost predicate Tracked(keys: set<string>, deps: map<string, set<string>>, index: Index) {
    && keys <= deps.Keys
    && forall k, t :: k in keys && t in deps[k] ==> t in index && k in index[t]
  }

  /** Dropping stored keys keeps the index complete for the rest. */
  lemma TrackedSubset(keys: set<string>, keys': set<string>, deps: map<string, set<string>>, index: Index)
    requires Tracked(keys, deps, index) && keys' <= keys
    ensures Tracked(keys', deps, index)
  {
  }

  /** `put` keeps the index complete: the new key is recorded under its tables, and recording only adds. */
  lemma TrackedAfterPut(keys: set<string>, keys': set<string>, deps: map<string, set<string>>, index: Index,
                        key: string, tables: seq<string>)
    requires Tracked(keys, deps, index) && keys' <= keys + {key}
    ensures Tracked(keys', deps[key := Elements(tables)], RecordAll(index, key, tables))
  {
    var deps' := deps[key := Elements(tables)];
    var index' := RecordAll(index, key, tables);
    forall k, t | k in keys' && t in deps'[k] ensures t in index' && k in index'[t] {
      if k != key {
        assert t in deps[k];
        assert k in Dependents(index, t);
      }
    }
  }

  /**
   * `onMutate` keeps the index complete: a stored key recorded under a named
   * table was collected and deleted, and the sets of other tables are untouched.
   */
  lemma TrackedAfterMutate(keys: set<string>, deps: map<string, set<string>>, index: Index,
                           doomed: set<string>, tables: seq<string>)
    requires Tracked(keys, deps, index)
    requires CollectKeys(index, tables) <= doomed
    ensures Tracked(keys - doomed, deps, ClearTables(index, tables))
    ensures forall k, t :: k in keys - doomed && t in tables ==> t !in deps[k]
  {
    var index' := ClearTables(index, tables);
    forall k, t | k in keys - doomed && t in deps[k] ensures t in index' && k in index'[t] && t !in tables {
      assert t in index && k in index[t];
    }
  }

  class DrizzleLRUCache<V> {
    /** The result store (the source's `lru-cache` instance, by its abstract value). */
    var cache: Store<V>
    /** For each table name, the keys whose cached results were read from it. */
    var usedTablesPerKey: Index
    /** For each stored key, the tables its current value was read from. */
    ghost var deps: map<string, set<string>>

    /**
     * The cache's invariant: the store's own, and every stored key is recorded
     * under every table its current value was read from (stale memberships of
     * keys no longer stored are allowed).
     */
    ghost predicate Valid()
      reads this
    {
      && cache.Valid()
      && Tracked(cache.entries.Keys, deps, usedTablesPerKey)
    }

    /**
     * `new DrizzleLRUCache(options)`: a capacity of `max ?? 5000` and a
     * default TTL of `ttl ?? 1000`; `nonPositive` is the library's reading of
     * a TTL that is not positive.
     */
    constructor (max: Option<int>, ttl: Option<int>, nonPositive: NonPositiveTtl)
      requires max.Some? ==> max.value >= 1
      ensures Valid()
      ensures cache == Empty(max.GetOr(DefaultMax), ttl.GetOr(GlobalTtl), nonPositive)
      ensures cache.max == (if max.Some? then max.value else 5000)
      ensures cache.ttl == (if ttl.Some? then ttl.value else 1000)
      ensures usedTablesPerKey == map[] && deps == map[]
    {
      cache := Empty(max.GetOr(DefaultMax), ttl.GetOr(GlobalTtl), nonPositive);
      usedTablesPerKey := map[];
      deps := map[];
    }

    /** `get(key)`: the store's answer at time `now`; the index is not consulted. */
    method Get(key: string, now: int) returns (r: Option<V>)
      requires Valid()
      modifies this
      ensures Valid()
      ensures r == old(cache).GetResult(key, now)
      ensures r.Some? ==> key in old(cache).entries && !Stale(old(cache).entries[key], now, cache.rule)
      ensures cache == old(cache).AfterGet(key, now)
      ensures usedTablesPerKey == old(usedTablesPerKey) && deps == old(deps)
    {
      r := cache.GetResult(key, now);
      cache := cache.AfterGet(key, now);
      TrackedSubset(old(cache).entries.Keys, cache.entries.Keys, deps, usedTablesPerKey);
    }

    /**
     * `put(key, response, tables, isTag, config)` at time `now`: stores the
     * response with the resolved TTL and records the key under every table
     * it was read from. `isTag` is accepted and ignored, as in the source.
     */
    method Put(key: string, response: V, tables: seq<string>, isTag: bool, config: Option<CacheConfig>, now: int)
      requires Valid()
      modifies this
      ensures Valid()
      ensures cache == old(cache).Set(key, response, ResolveTtl(config), now)
      ensures usedTablesPerKey == RecordAll(old(usedTablesPerKey), key, tables)
      ensures deps == old(deps)[key := Elements(tables)]
    {
      var ttl := ResolveTtl(config);
      ghost var keys0 := cache.entries.Keys;
      cache := cache.Set(key, response, ttl, now);
      SetKeysWithin(old(cache), key, response, ttl, now);
      TrackedAfterPut(keys0, cache.entries.Keys, deps, usedTablesPerKey, key, tables);
      usedTablesPerKey := RecordKey(usedTablesPerKey, key, tables);
      deps := deps[key := Elements(tables)];
    }

    /**
     * `onMutate({ tags, tables })`: deletes every tag used as a key and every
     * key recorded under a named table, then empties each named table's set.
     */
    method OnMutate(tags: Names, tables: Names)
      requires Valid()
      modifies this
      ensures Valid()
      ensures cache == old(cache).DeleteMany(Doomed(old(usedTablesPerKey), tags, tables))
      ensures usedTablesPerKey == ClearTables(old(usedTablesPerKey), Normalise(tables))
      ensures deps == old(deps)
      ensures forall k, t :: k in cache.entries && t in Normalise(tables) ==> t !in deps[k]
    {
      var tagsArray := Normalise(tags);
      var tablesArray := Normalise(tables);
      ghost var keys0 := cache.entries.Keys;

      var keysToDelete := CollectDependents(usedTablesPerKey, tablesArray);
      cache := DeleteTags(cache, tagsArray);
      cache := DeleteKeys(cache, keysToDelete);
      DeleteManyUnion(old(cache), Elements(tagsArray), keysToDelete);

      TrackedAfterMutate(keys0, deps, usedTablesPerKey, Doomed(usedTablesPerKey, tags, tables), tablesArray);
      usedTablesPerKey := ClearNamed(usedTablesPerKey, tablesArray);
    }
  }

  /** `onMutate`'s tag loop: `delete(tag)` on the store for each tag in turn. */
  method DeleteTags<V>(s0: Store<V>, tags: seq<string>) returns (s: Store<V>)
    ensures s == s0.DeleteMany(Elements(tags))
  {
    s := s0;
    DeleteNone(s0);
    assert Elements(tags[..0]) == {};
    for i := 0 to |tags|
      invariant s == s0.DeleteMany(Elements(tags[..i]))
    {
      ghost var done := Elements(tags[..i]);
      DeleteStep(s0, done, tags[i]);
      s := s.Delete(tags[i]);
      ElementsPrefix(tags, i);
    }
    assert tags[..|tags|] == tags;
  }

  /** `onMutate`'s key loop: `delete(key)` on the store for every collected key, in any order. */
  method DeleteKeys<V>(s0: Store<V>, keys: set<string>) returns (s: Store<V>)
    ensures s == s0.DeleteMany(keys)
  {
    s := s0;
    var remaining := keys;
    DeleteNone(s0);
    assert keys - remaining == {};
    while remaining != {}
      invariant remaining <= keys
      invariant s == s0.DeleteMany(keys - remaining)
      decreases |remaining|
    {
      var key :| key in remaining;
      ghost var done := keys - remaining;
      DeleteStep(s0, done, key);
      s := s.Delete(key);
      remaining := remaining - {key};
      assert keys - remaining == done + {key};
    }
    assert keys - remaining == keys;
  }
}
