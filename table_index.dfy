/**
 * The dependency index of the query cache: for each table name, the set of
 * cache keys whose cached result was read from that table.
 */
module TableIndex {

  type Index = map<string, set<string>>

  /** The distinct elements of a list. */
  function Elements(s: seq<string>): (r: set<string>)
    ensures forall x :: x in r <==> x in s
  {
    set x | x in s
  }

  /** Taking one more element of a list adds that element. */
  lemma ElementsPrefix(s: seq<string>, i: nat)
    requires i < |s|
    ensures Elements(s[..i + 1]) == Elements(s[..i]) + {s[i]}
  {
    assert s[..i + 1] == s[..i] + [s[i]];
  }

  /** The keys `index` records under `table`; a table never recorded has none. */
  function Dependents(index: Index, table: string): (r: set<string>)
    ensures table !in index ==> r == {}
    ensures table in index ==> r == index[table]
  {
    if table in index then index[table] else {}
  }

  /**
   * The index after `put` records `key` under every table in `tables`, one
   * table after another, creating the set of a table seen for the first time.
   */
  function RecordAll(index: Index, key: string, tables: seq<string>): (r: Index)
    ensures r.Keys == index.Keys + Elements(tables)
    ensures forall t :: t in r ==> r[t] == Dependents(index, t) + (if t in tables then {key} else {})
    decreases |tables|
  {
    if tables == [] then index
    else
      var table := tables[0];
      var r := RecordAll(index[table := Dependents(index, table) + {key}], key, tables[1..]);
      assert forall t :: t in tables <==> t == table || t in tables[1..];
      r
  }

  /**
   * `put`'s recording loop: for each table, create its set if it has none,
   * then add the key.
   */
  method RecordKey(index0: Index, key: string, tables: seq<string>) returns (index: Index)
    ensures index == RecordAll(index0, key, tables)
  {
    index := index0;
    for i := 0 to |tables|
      invariant index.Keys == index0.Keys + Elements(tables[..i])
      invariant forall t :: t in index ==>
                  index[t] == Dependents(index0, t) + (if t in tables[..i] then {key} else {})
    {
      var table := tables[i];
      if table !in index {
        index := index[table := {}];
      }
      index := index[table := index[table] + {key}];
      assert forall t :: t in tables[..i + 1] <==> t in tables[..i] || t == table;
    }
    assert tables[..|tables|] == tables;
    RecordAllUnique(index0, key, tables, index);
  }

  /** `RecordAll`'s two ensures clauses determine its result. */
  lemma RecordAllUnique(index: Index, key: string, tables: seq<string>, r: Index)
    requires r.Keys == index.Keys + Elements(tables)
    requires forall t :: t in r ==> r[t] == Dependents(index, t) + (if t in tables then {key} else {})
    ensures r == RecordAll(index, key, tables)
  {
  }

  /** Recording is set-valued: recording a key under tables it is already recorded under changes nothing. */
  lemma RecordAgainNoChange(index: Index, key: string, tables: seq<string>)
    requires forall t :: t in tables ==> t in index && key in index[t]
    ensures RecordAll(index, key, tables) == index
  {
    var r := RecordAll(index, key, tables);
    assert r.Keys == index.Keys;
    forall t | t in r ensures r[t] == index[t] {}
  }

  /** Recording twice is recording once. */
  lemma RecordIdempotent(index: Index, key: string, tables: seq<string>)
    ensures RecordAll(RecordAll(index, key, tables), key, tables) == RecordAll(index, key, tables)
  {
    RecordAgainNoChange(RecordAll(index, key, tables), key, tables);
  }

  /** The union of the keys recorded under the named tables; tables never recorded contribute nothing. */
  function CollectKeys(index: Index, tables: seq<string>): (r: set<string>)
    ensures forall t :: t in tables ==> Dependents(index, t) <= r
    ensures forall k :: k in r ==> exists t :: t in tables && t in index && k in index[t]
    decreases |tables|
  {
    if tables == [] then {}
    else
      var table := tables[|tables| - 1];
      var r := CollectKeys(index, tables[..|tables| - 1]) + Dependents(index, table);
      assert forall t :: t in tables <==> t in tables[..|tables| - 1] || t == table;
      r
  }

  /** Collecting one more table adds that table's dependents. */
  lemma CollectStep(index: Index, tables: seq<string>, i: int)
    requires 0 <= i < |tables|
    ensures CollectKeys(index, tables[..i + 1]) == CollectKeys(index, tables[..i]) + Dependents(index, tables[i])
  {
    assert tables[..i + 1][..i] == tables[..i];
  }

  /** `onMutate`'s inner loop: add the keys of one table's set, one at a time. */
  method AddAll(acc: set<string>, keys0: set<string>) returns (r: set<string>)
    ensures r == acc + keys0
  {
    r := acc;
    var keys := keys0;
    while keys != {}
      invariant r + keys == acc + keys0
      decreases |keys|
    {
      var key :| key in keys;
      r := r + {key};
      keys := keys - {key};
    }
  }

  /**
   * `onMutate`'s first loop: for each named table that has a set, add every
   * key of that set to `keysToDelete`.
   */
  method CollectDependents(index: Index, tables: seq<string>) returns (keysToDelete: set<string>)
    ensures keysToDelete == CollectKeys(index, tables)
  {
    keysToDelete := {};
    for i := 0 to |tables|
      invariant keysToDelete == CollectKeys(index, tables[..i])
    {
      var table := tables[i];
      CollectStep(index, tables, i);
      if table in index {
        keysToDelete := AddAll(keysToDelete, index[table]);
      }
    }
    assert tables[..|tables|] == tables;
  }

  /**
   * The index after `onMutate` empties the set of every named table that has
   * one; a named table without a set is skipped and no set is created.
   */
  function ClearTables(index: Index, tables: seq<string>): (r: Index)
    ensures r.Keys == index.Keys
    ensures forall t :: t in r && t in tables ==> r[t] == {}
    ensures forall t :: t in r && t !in tables ==> r[t] == index[t]
  {
    map t | t in index :: if t in tables then {} else index[t]
  }

  /** `onMutate`'s last loop: empty the set of each named table that has one. */
  method ClearNamed(index0: Index, tables: seq<string>) returns (index: Index)
    ensures index == ClearTables(index0, tables)
  {
    index := index0;
    for i := 0 to |tables|
      invariant index == ClearTables(index0, tables[..i])
    {
      var table := tables[i];
      if table in index {
        index := index[table := {}];
      }
      assert forall t :: t in tables[..i + 1] <==> t in tables[..i] || t == table;
    }
    assert tables[..|tables|] == tables;
  }

  /** Once the named tables are cleared, collecting their keys again finds none. */
  lemma CollectAfterClear(index: Index, tables: seq<string>)
    ensures CollectKeys(ClearTables(index, tables), tables) == {}
  {
    var c := CollectKeys(ClearTables(index, tables), tables);
    if k :| k in c {
      assert false;
    }
  }

  /** Clearing is idempotent. */
  lemma ClearIdempotent(index: Index, tables: seq<string>)
    ensures ClearTables(ClearTables(index, tables), tables) == ClearTables(index, tables)
  {
  }

  // ---------------------------------------------------------------------------
  // The index as written: a plain JavaScript object
  // ---------------------------------------------------------------------------

  /**
   * The property names every object literal inherits from `Object.prototype`.
   * Reading `obj[name]` for one of them yields an inherited (truthy) member
   * even though the object has no such own entry.
   */
  const InheritedNames: set<string> := {
    "__proto__", "constructor", "hasOwnProperty", "isPrototypeOf",
    "propertyIsEnumerable", "toLocaleString", "toString", "valueOf",
    "__defineGetter__", "__defineSetter__", "__lookupGetter__", "__lookupSetter__"}

  datatype RecordOutcome = Recorded(index: Index) | TypeError

  /**
   * `put`'s recording loop as written over `Record<string, Set<string>>`
   * initialised to `{}`: for an inherited name the `!index[table]` guard sees
   * a truthy member, no set is created, and `.add(key)` is not a function.
   */
  function RecordAllAsWritten(index: Index, key: string, tables: seq<string>): (r: RecordOutcome)
    decreases |tables|
  {
    if tables == [] then Recorded(index)
    else
      var table := tables[0];
      if table !in index && table in InheritedNames then TypeError
      else RecordAllAsWritten(index[table := Dependents(index, table) + {key}], key, tables[1..])
  }

  /** A concrete input: recording a query under a table named `constructor` throws. */
  lemma ConstructorTableThrows()
    ensures RecordAllAsWritten(map[], "q", ["constructor"]) == TypeError
  {
  }

  /** Any inherited table name makes the recording loop throw, since such a name never gets an own entry. */
  lemma {:induction false} InheritedNameThrows(index: Index, key: string, tables: seq<string>)
    requires forall t :: t in index ==> t !in InheritedNames
    requires exists t :: t in tables && t in InheritedNames
    ensures RecordAllAsWritten(index, key, tables) == TypeError
    decreases |tables|
  {
    var table := tables[0];
    if table !in InheritedNames {
      var t :| t in tables && t in InheritedNames;
      assert t in tables[1..];
      InheritedNameThrows(index[table := Dependents(index, table) + {key}], key, tables[1..]);
    }
  }

  /** For every other table name the code as written records exactly what `RecordAll` records. */
  lemma {:induction false} AsWrittenAgrees(index: Index, key: string, tables: seq<string>)
    requires forall t :: t in tables ==> t !in InheritedNames
    ensures RecordAllAsWritten(index, key, tables) == Recorded(RecordAll(index, key, tables))
    decreases |tables|
  {
    if tables != [] {
      var table := tables[0];
      AsWrittenAgrees(index[table := Dependents(index, table) + {key}], key, tables[1..]);
    }
  }
}
