/**
 * An abstract model of the bounded key/value store the cache delegates to
 * (the `lru-cache` library, whose code is not part of this model).
 *
 * The store maps each key to its value, the clock reading when it was set
 * and the TTL it was set with, and keeps the keys in recency order (least
 * recently used first). Reads never return a stale entry (the cache is
 * configured with `allowStale: false`) and remove it instead; inserting a
 * new key into a full store first evicts the least recently used key.
 */
module LruStore {
  import opened Wrappers

  /**
   * What the library does with an entry whose TTL is not positive is the
   * library's own decision; the model keeps it as a parameter and proves
   * nothing that depends on which of the two readings holds.
   */
  datatype NonPositiveTtl = StaleAtOnce | NeverStale

  datatype Entry<V> = Entry(value: V, start: int, ttl: int)

  /** An entry is stale once its age exceeds its (positive) TTL. */
  predicate Stale<V>(e: Entry<V>, now: int, rule: NonPositiveTtl) {
    if e.ttl > 0 then now - e.start > e.ttl else rule == StaleAtOnce
  }

  /**
   * Expiry is lasting and a positive TTL gives a grace period: an entry is
   * fresh when set and for its whole TTL, and once stale it stays stale.
   */
  lemma StaleIsLasting<V>(e: Entry<V>, now: int, later: int, rule: NonPositiveTtl)
    ensures e.ttl > 0 && e.start <= now <= e.start + e.ttl ==> !Stale(e, now, rule)
    ensures Stale(e, now, rule) && now <= later ==> Stale(e, later, rule)
  {
  }

  /** No key occurs twice. */
  ghost predicate Distinct(s: seq<string>) {
    forall i, j :: 0 <= i < j < |s| ==> s[i] != s[j]
  }

  /** The keys of `s` outside `ks`, in their original order. */
  function Without(s: seq<string>, ks: set<string>): (r: seq<string>)
    ensures forall x :: x in r <==> x in s && x !in ks
    ensures |r| <= |s|
    ensures Distinct(s) ==> Distinct(r)
  {
    if s == [] then []
    else if s[0] in ks then Without(s[1..], ks)
    else [s[0]] + Without(s[1..], ks)
  }

  lemma {:induction false} WithoutWithout(s: seq<string>, a: set<string>, b: set<string>)
    ensures Without(Without(s, a), b) == Without(s, a + b)
  {
    if s != [] {
      WithoutWithout(s[1..], a, b);
    }
  }

  lemma {:induction false} WithoutAppend(s: seq<string>, t: seq<string>, ks: set<string>)
    ensures Without(s + t, ks) == Without(s, ks) + Without(t, ks)
  {
    if s == [] {
      assert s + t == t;
    } else {
      assert (s + t)[0] == s[0];
      assert (s + t)[1..] == s[1..] + t;
      WithoutAppend(s[1..], t, ks);
    }
  }

  /** Moving `key` to the end leaves the order of the other keys as it was. */
  lemma MoveToEnd(s: seq<string>, key: string)
    ensures Without(Without(s, {key}) + [key], {key}) == Without(s, {key})
  {
    WithoutAppend(Without(s, {key}), [key], {key});
    WithoutWithout(s, {key}, {key});
    assert {key} + {key} == {key};
  }

  lemma {:induction false} WithoutNothing(s: seq<string>, ks: set<string>)
    requires forall x :: x in s ==> x !in ks
    ensures Without(s, ks) == s
  {
    if s != [] {
      WithoutNothing(s[1..], ks);
    }
  }

  datatype Store<V> = Store(
    max: int,                       // capacity, fixed at construction
    ttl: int,                       // the library's default TTL, fixed at construction
    rule: NonPositiveTtl,           // the library's reading of a TTL that is not positive
    entries: map<string, Entry<V>>,
    order: seq<string>)             // least recently used first
  {
    /** The store's invariant: within capacity, and the recency order lists exactly the stored keys once each. */
    ghost predicate Valid() {
      && 1 <= max
      && |entries| <= max
      && Distinct(order)
      && (forall k :: k in entries <==> k in order)
    }

    /** What `get(key)` returns at time `now`: the value of a present, fresh entry, and nothing otherwise. */
    function GetResult(key: string, now: int): (r: Option<V>)
      ensures r.Some? <==> key in entries && !Stale(entries[key], now, rule)
      ensures r.Some? ==> r.value == entries[key].value
    {
      if key in entries && !Stale(entries[key], now, rule) then Some(entries[key].value) else None
    }

    /** The store after `delete(k)` for every `k` in `keys`; absent keys are no-ops. */
    function DeleteMany(keys: set<string>): (r: Store<V>)
      ensures r.max == max && r.ttl == ttl && r.rule == rule
      ensures forall k :: k in r.entries <==> k in entries && k !in keys
      ensures forall k :: k in r.entries ==> r.entries[k] == entries[k]
      ensures r.order == Without(order, keys)
      ensures Valid() ==> r.Valid()
    {
      var r := Store(max, ttl, rule, entries - keys, Without(order, keys));
      assert r.entries.Keys == entries.Keys - keys;
      assert |r.entries.Keys| <= |entries.Keys| by {
        SubsetCard(r.entries.Keys, entries.Keys);
      }
      r
    }

    /** The store after `delete(key)`. */
    function Delete(key: string): (r: Store<V>)
      ensures r == DeleteMany({key})
      ensures forall k :: k in r.entries <==> k in entries && k != key
      ensures forall k :: k in r.entries ==> r.entries[k] == entries[k]
      ensures Valid() ==> r.Valid()
    {
      DeleteMany({key})
    }

    /** Stores `e` under `key` as the most recently used key, without evicting anything. */
    function Insert(key: string, e: Entry<V>): (r: Store<V>)
      ensures r.max == max && r.ttl == ttl && r.rule == rule
      ensures r.entries == entries[key := e]
      ensures |r.order| > 0 && r.order[|r.order| - 1] == key
      ensures Valid() && (key in entries || |entries| < max) ==> r.Valid()
    {
      var order' := Without(order, {key}) + [key];
      assert Distinct(order) ==> Distinct(order') by {
        if Distinct(order) {
          var w := Without(order, {key});
          assert forall i :: 0 <= i < |w| ==> w[i] in w;
        }
      }
      Store(max, ttl, rule, entries[key := e], order')
    }

    /** The store after evicting its least recently used key (the store is unchanged when empty). */
    function EvictLru(): (r: Store<V>)
      ensures r.max == max && r.ttl == ttl && r.rule == rule
      ensures forall k :: k in r.entries ==> k in entries && r.entries[k] == entries[k]
      ensures Valid() && |entries| > 0 ==>
                |order| > 0 && r.entries.Keys == entries.Keys - {order[0]} && |r.entries| < |entries|
      ensures Valid() ==> r.Valid()
    {
      if |order| == 0 then this
      else
        var r := DeleteMany({order[0]});
        assert Valid() ==> r.entries.Keys == entries.Keys - {order[0]} && order[0] in entries.Keys;
        r
    }

    /** A new key arriving at a full store: evict the least recently used key, then insert. */
    function EvictThenInsert(key: string, e: Entry<V>): (r: Store<V>)
      ensures r.max == max && r.ttl == ttl && r.rule == rule
      ensures key in r.entries && r.entries[key] == e
      ensures |r.order| > 0 && r.order[|r.order| - 1] == key
      ensures forall k :: k in r.entries && k != key ==> k in entries && r.entries[k] == entries[k]
      ensures |order| > 0 ==> Without(r.order, {key}) == Without(order, {key} + {order[0]})
      ensures Valid() && key !in entries && |entries| >= max ==> r.Valid()
    {
      EvictInsertOrder(this, key, e);
      EvictLru().Insert(key, e)
    }

    /**
     * The store after `set(key, value, { ttl })` at time `now`: the entry is
     * replaced or created as the most recently used one; a new key arriving
     * at a full store first evicts the least recently used key.
     */
    function Set(key: string, value: V, ttl: int, now: int): (r: Store<V>)
      ensures r.max == max && r.ttl == this.ttl && r.rule == rule
      ensures key in r.entries && r.entries[key] == Entry(value, now, ttl)
      ensures |r.order| > 0 && r.order[|r.order| - 1] == key
      ensures forall k :: k in r.entries && k != key ==> k in entries && r.entries[k] == entries[k]
      ensures key in entries || |entries| < max ==> Without(r.order, {key}) == Without(order, {key})
      ensures key !in entries && |entries| >= max && |order| > 0 ==>
                Without(r.order, {key}) == Without(order, {key} + {order[0]})
      ensures Valid() ==> r.Valid()
    {
      var e := Entry(value, now, ttl);
      if key !in entries && |entries| >= max then
        EvictThenInsert(key, e)
      else
        InsertOrder(this, key, e);
        Insert(key, e)
    }

    /**
     * The store after `get(key)` at time `now`: a fresh entry becomes the
     * most recently used one; a stale one is removed.
     */
    function AfterGet(key: string, now: int): (r: Store<V>)
      ensures r.max == max && r.ttl == ttl && r.rule == rule
      ensures forall k :: k in r.entries ==> k in entries && r.entries[k] == entries[k]
      ensures forall k :: k in entries && k != key ==> k in r.entries
      ensures key in r.entries <==> key in entries && !Stale(entries[key], now, rule)
      ensures key in r.entries ==> |r.order| > 0 && r.order[|r.order| - 1] == key
      ensures Valid() ==> Without(r.order, {key}) == Without(order, {key})
      ensures Valid() ==> r.Valid()
    {
      if key !in entries then this
      else if Stale(entries[key], now, rule) then
        DeleteOrder(this, key);
        Delete(key)
      else
        assert entries[key := entries[key]] == entries;
        InsertOrder(this, key, entries[key]);
        Insert(key, entries[key])
    }
  }

  /** Deleting `key` leaves the order of the other keys as it was. */
  lemma DeleteOrder<V>(s: Store<V>, key: string)
    ensures Without(s.Delete(key).order, {key}) == Without(s.order, {key})
  {
    WithoutWithout(s.order, {key}, {key});
    assert {key} + {key} == {key};
  }

  /** Making `key` the most recently used key leaves the order of the other keys as it was. */
  lemma InsertOrder<V>(s: Store<V>, key: string, e: Entry<V>)
    ensures Without(s.Insert(key, e).order, {key}) == Without(s.order, {key})
  {
    MoveToEnd(s.order, key);
  }

  /** Evicting the least recently used key, then inserting `key`, leaves the order of the rest as it was. */
  lemma EvictInsertOrder<V>(s: Store<V>, key: string, e: Entry<V>)
    ensures |s.order| > 0 ==>
              Without(s.EvictLru().Insert(key, e).order, {key}) == Without(s.order, {key} + {s.order[0]})
  {
    if |s.order| > 0 {
      var v := s.EvictLru();
      assert v.order == Without(s.order, {s.order[0]});
      MoveToEnd(v.order, key);
      WithoutWithout(s.order, {s.order[0]}, {key});
      assert {s.order[0]} + {key} == {key} + {s.order[0]};
    }
  }

  /** A `set` of a present key, or into a store with room, adds `key` and evicts nothing. */
  lemma SetKeysRoom<V>(s: Store<V>, key: string, value: V, ttl: int, now: int)
    requires key in s.entries || |s.entries| < s.max
    ensures s.Set(key, value, ttl, now).entries.Keys == s.entries.Keys + {key}
  {
    var e := Entry(value, now, ttl);
    assert s.Insert(key, e).entries.Keys == s.entries.Keys + {key};
  }

  /** A `set` of a new key into a full store evicts exactly the least recently used key. */
  lemma SetKeysEvict<V>(s: Store<V>, key: string, value: V, ttl: int, now: int)
    requires s.Valid() && key !in s.entries && |s.entries| >= s.max
    ensures |s.order| > 0 && s.Set(key, value, ttl, now).entries.Keys == s.entries.Keys - {s.order[0]} + {key}
  {
    var v := s.EvictLru();
    assert v.Insert(key, Entry(value, now, ttl)).entries.Keys == v.entries.Keys + {key};
  }

  /** Which keys a `set` leaves in the store: all old ones plus `key`, except the evicted least recently used key when a new key meets a full store. */
  lemma SetKeys<V>(s: Store<V>, key: string, value: V, ttl: int, now: int)
    requires s.Valid()
    ensures key in s.entries || |s.entries| < s.max ==>
              s.Set(key, value, ttl, now).entries.Keys == s.entries.Keys + {key}
    ensures key !in s.entries && |s.entries| >= s.max ==>
              |s.order| > 0 && s.Set(key, value, ttl, now).entries.Keys == s.entries.Keys - {s.order[0]} + {key}
  {
    if key !in s.entries && |s.entries| >= s.max {
      SetKeysEvict(s, key, value, ttl, now);
    } else {
      SetKeysRoom(s, key, value, ttl, now);
    }
  }

  /** A `set` adds at most its own key. */
  lemma SetKeysWithin<V>(s: Store<V>, key: string, value: V, ttl: int, now: int)
    ensures s.Set(key, value, ttl, now).entries.Keys <= s.entries.Keys + {key}
  {
  }

  lemma SubsetCard(a: set<string>, b: set<string>)
    requires a <= b
    ensures |a| <= |b|
  {
    assert b == a + (b - a);
  }

  /** A freshly constructed, empty store. */
  function Empty<V>(max: int, ttl: int, rule: NonPositiveTtl): (s: Store<V>)
    requires 1 <= max
    ensures s.Valid() && s.entries == map[] && s.max == max && s.ttl == ttl
  {
    Store(max, ttl, rule, map[], [])
  }

  // ---------------------------------------------------------------------------
  // Properties of the store
  // ---------------------------------------------------------------------------

  /** `allowStale: false`: a stale entry is never returned, and reading it removes it. */
  lemma StaleNeverReturned<V>(s: Store<V>, key: string, now: int)
    requires key in s.entries && Stale(s.entries[key], now, s.rule)
    ensures s.GetResult(key, now) == None
    ensures key !in s.AfterGet(key, now).entries
  {
  }

  /** Deleting in two rounds is deleting the union; the order of deletions does not matter. */
  lemma DeleteManyUnion<V>(s: Store<V>, a: set<string>, b: set<string>)
    ensures s.DeleteMany(a).DeleteMany(b) == s.DeleteMany(a + b)
  {
    WithoutWithout(s.order, a, b);
    assert (s.entries - a) - b == s.entries - (a + b);
  }

  /** One more `delete` extends the set of deleted keys. */
  lemma DeleteStep<V>(s: Store<V>, done: set<string>, key: string)
    ensures s.DeleteMany(done).Delete(key) == s.DeleteMany(done + {key})
  {
    DeleteManyUnion(s, done, {key});
  }

  /** Deleting no key changes nothing. */
  lemma DeleteNone<V>(s: Store<V>)
    ensures s.DeleteMany({}) == s
  {
    WithoutNothing(s.order, {});
    assert s.entries - {} == s.entries;
  }

  /** Deleting keys that are not stored changes nothing. */
  lemma DeleteAbsent<V>(s: Store<V>, keys: set<string>)
    requires s.Valid()
    requires forall k :: k in keys ==> k !in s.entries
    ensures s.DeleteMany(keys) == s
  {
    WithoutNothing(s.order, keys);
    assert s.entries - keys == s.entries;
  }

  /**
   * Recency protects: a key just read while fresh is the most recently used
   * one, so a new key inserted next evicts some other key (when the store
   * holds at least two).
   */
  lemma GetProtectsFromEviction<V>(s: Store<V>, key: string, now: int,
                                   other: string, value: V, ttl: int, later: int)
    requires s.Valid() && key in s.entries && !Stale(s.entries[key], now, s.rule)
    requires other != key && |s.entries| >= 2
    ensures key in s.AfterGet(key, now).Set(other, value, ttl, later).entries
  {
    var g := s.AfterGet(key, now);
    assert g.entries == s.entries;
    if other !in g.entries && |g.entries| >= g.max {
      var keys := g.entries.Keys;
      assert |keys - {key}| == |keys| - 1;
      var k' :| k' in keys - {key};
      var i :| 0 <= i < |g.order| && g.order[i] == k';
      assert i != |g.order| - 1;
      assert g.order[0] != key;
    }
  }

  // ---------------------------------------------------------------------------
  // Runs of operations
  // ---------------------------------------------------------------------------

  datatype Op<V> =
    | GetOp(key: string, now: int)
    | SetOp(key: string, value: V, ttl: int, now: int)
    | DeleteOp(key: string)

  function Step<V>(s: Store<V>, op: Op<V>): Store<V> {
    match op
    case GetOp(k, now) => s.AfterGet(k, now)
    case SetOp(k, v, ttl, now) => s.Set(k, v, ttl, now)
    case DeleteOp(k) => s.Delete(k)
  }

  function Run<V>(s: Store<V>, ops: seq<Op<V>>): Store<V>
    decreases |ops|
  {
    if ops == [] then s else Run(Step(s, ops[0]), ops[1..])
  }

  /** No operation of the run writes or deletes `key`. */
  predicate LeavesAlone<V>(ops: seq<Op<V>>, key: string) {
    forall i :: 0 <= i < |ops| ==> ops[i].GetOp? || ops[i].key != key
  }

  /**
   * An entry no operation writes or deletes is either gone (evicted or
   * expired) or exactly as it was; nothing else can bring it back.
   */
  lemma {:induction false} EntrySurvives<V>(s: Store<V>, ops: seq<Op<V>>, key: string)
    requires LeavesAlone(ops, key)
    requires key in Run(s, ops).entries
    ensures key in s.entries && Run(s, ops).entries[key] == s.entries[key]
    decreases |ops|
  {
    if ops != [] {
      var s' := Step(s, ops[0]);
      assert LeavesAlone(ops[1..], key) by {
        forall i | 0 <= i < |ops| - 1 ensures ops[1..][i].GetOp? || ops[1..][i].key != key {
          assert ops[1..][i] == ops[i + 1];
        }
      }
      EntrySurvives(s', ops[1..], key);
      assert ops[0].GetOp? || ops[0].key != key;
    }
  }

  /**
   * After `set(key, value)`, `get(key)` returns `value` for as long as the
   * entry has been neither evicted nor expired, whatever happens to other keys.
   */
  lemma PutThenGet<V>(s: Store<V>, key: string, value: V, ttl: int, start: int,
                      ops: seq<Op<V>>, now: int)
    requires LeavesAlone(ops, key)
    ensures var s' := Run(s.Set(key, value, ttl, start), ops);
            s'.GetResult(key, now) ==
              if key in s'.entries && !Stale(Entry(value, start, ttl), now, s.rule) then Some(value) else None
  {
    var s1 := s.Set(key, value, ttl, start);
    if key in Run(s1, ops).entries {
      EntrySurvives(s1, ops, key);
      RunKeepsRule(s1, ops);
    }
  }

  lemma {:induction false} RunKeepsRule<V>(s: Store<V>, ops: seq<Op<V>>)
    ensures Run(s, ops).rule == s.rule && Run(s, ops).max == s.max
    decreases |ops|
  {
    if ops != [] {
      RunKeepsRule(Step(s, ops[0]), ops[1..]);
    }
  }

  /** Every run keeps the store within its capacity. */
  lemma {:induction false} RunKeepsValid<V>(s: Store<V>, ops: seq<Op<V>>)
    requires s.Valid()
    ensures Run(s, ops).Valid() && |Run(s, ops).entries| <= s.max
    decreases |ops|
  {
    if ops != [] {
      RunKeepsValid(Step(s, ops[0]), ops[1..]);
    }
  }
}
