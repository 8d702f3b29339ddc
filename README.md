# Shortlink query cache and input helpers, in Dafny

This project models two parts of the shortlink service (a URL shortener
built on Express and the Drizzle ORM):

- `DrizzleLRUCache` (`src/drizzleCache.ts`) is the query-result cache the
  ORM consults.
  - `put` stores a query's result in a bounded LRU store with a time to live
    (TTL). It also records the cache key under every table the query read.
  - `get` returns a stored result only while it is fresh.
  - `onMutate` runs after a write. It deletes each tag used as a key and every
    key recorded under a written table, then empties those tables' key sets.
- The input helpers (`src/helpers.ts`):
  - `generateUniqueString` draws random slugs from a 62-character alphabet.
  - `isValidSlug` and `isValidDomain` are regular-expression validators.

Modules:

- `Wrappers`: `Option`.
- `LruStore`: the part of the `lru-cache` library the class relies on, as an
  abstract value `Store`.
  - A store holds entries with a start time and a TTL, and a recency order.
  - It serves `get`, `set` and `delete`.
  - `allowStale: false` holds: stale entries are never returned, and a read
    removes them.
  - Lemmas cover capacity, recency, staleness and runs of operations.
- `TableIndex`: the dependency index `usedTablesPerKey`. It has the three
  loops that read or change it, each a method proved against a function,
  plus the plain-object version of the index as written.
- `DrizzleCache`: the class.
  - Its fields are the store and the index, plus a ghost map `deps` from each
    stored key to the tables its value was read from.
  - Its invariant `Valid` says every stored key is recorded under each of
    those tables. So after `onMutate` on a table, no stored result depends
    on that table.
- `Helpers`: the generator as a loop, and the two validators.
  - Each validator is a recursive matcher that mirrors its regular expression.
  - Each matcher is proved equal to a direct description of the strings it
    accepts.

Notes on the source:

- `put` always passes an explicit `ttl` to `set`: `px`, else `ex * 1000`, else
  1000. So the constructor's `ttl` option never reaches an entry stored by
  `put`. The model keeps that option in the store (`Store.ttl`), and no
  operation reads it, as in the source.
- What the library does with a TTL that is not positive is a parameter,
  `NonPositiveTtl`, for the two readings:
  - `StaleAtOnce`: stale at once;
  - `NeverStale`: never stale.

  No lemma depends on which reading holds.
- The clock is a `now` parameter of `get` and `put`. An entry with a positive
  TTL is stale once more than TTL milliseconds have passed since it was set.
- JavaScript measures string length in UTF-16 code units and Dafny in
  characters. The two agree on every string the validators accept, since an
  accepted string is ASCII.

## Model

| member | source | states |
|---|---|---|
| LruStore.Store.GetResult | src/drizzleCache.ts:28-30 | `get` yields a value exactly when the key is present and its entry is not stale, and the value is the stored one |
| LruStore.Stale | src/drizzleCache.ts:17-21 | an entry with a positive TTL is stale once more than TTL milliseconds have passed since it was set; a TTL that is not positive follows the library's reading (`NonPositiveTtl`) |
| LruStore.StaleIsLasting | src/drizzleCache.ts:17-21 | an entry is fresh from when it is set for its whole positive TTL, and once stale it stays stale |
| LruStore.Empty | src/drizzleCache.ts:17-21 | a new store has no entries, the given capacity and default TTL, and satisfies the invariant |
| LruStore.Store.AfterGet | src/drizzleCache.ts:17-21 | after `get`, a fresh entry is the most recently used key; a stale one is removed (`allowStale: false`); no other entry changes; the other keys keep their relative recency order; the invariant is kept |
| LruStore.Store.Set | src/drizzleCache.ts:41 | after `set`, the key holds the new value, start time and TTL, and is the most recently used key; every other remaining key keeps its entry; the other keys keep their relative recency order, less the least recently used key when a new key meets a full store; the invariant (capacity, order lists each key once) is kept |
| LruStore.Store.EvictThenInsert | src/drizzleCache.ts:41 | a new key arriving at a full store: the least recently used key is dropped, the new key becomes the most recently used one, and the rest keep their entries and their relative order |
| LruStore.SetKeysRoom | src/drizzleCache.ts:41 | a `set` of a present key, or into a store with room, adds the key and evicts nothing |
| LruStore.SetKeysEvict | src/drizzleCache.ts:41 | a `set` of a new key into a full store evicts exactly the least recently used key |
| LruStore.SetKeys | src/drizzleCache.ts:41 | `set` adds the key and nothing else when the key is present or there is room; otherwise it evicts exactly the least recently used key |
| LruStore.Store.Delete | src/drizzleCache.ts:84 | after `delete(key)`, exactly the other keys remain, with their entries unchanged, and the invariant is kept |
| LruStore.Store.DeleteMany | src/drizzleCache.ts:82-90 | after deleting a set of keys, exactly the other keys remain, with their entries unchanged and in their old recency order; deleting an absent key does nothing |
| LruStore.StaleNeverReturned | src/drizzleCache.ts:20 | a stale entry is never returned |
| LruStore.GetProtectsFromEviction | src/drizzleCache.ts:17-21 | a key just read while fresh survives the next insertion of a new key into a full store holding at least two keys |
| LruStore.EntrySurvives | src/drizzleCache.ts:28-41 | an entry that no operation writes or deletes is either gone or unchanged |
| LruStore.PutThenGet | src/drizzleCache.ts:28-41 | after `set(key, value)` and any operations leaving that key alone, `get(key)` returns `value` exactly when the entry is still stored and not stale, and nothing otherwise |
| LruStore.RunKeepsValid | src/drizzleCache.ts:17-21 | every run of `get`/`set`/`delete` keeps the store within its capacity `max` |
| DrizzleCache.ResolveTtl | src/drizzleCache.ts:39 | the TTL is `px` whenever given (0 included); else `ex * 1000` for a given non-zero `ex`; else 1000 |
| DrizzleCache.ZeroExIsMissing | src/drizzleCache.ts:39 | an `ex` of 0 counts as absent, while a `px` of 0 wins over any `ex` |
| DrizzleCache.Normalise | src/drizzleCache.ts:55-65 | a list is used as given, a non-empty single name becomes a one-element list, and a missing argument or the empty string becomes the empty list |
| DrizzleCache.NormaliseEmptyIff | src/drizzleCache.ts:55-65 | the argument normalises to no names exactly when it is missing, the empty string, or the empty list |
| DrizzleCache.Doomed | src/drizzleCache.ts:67-90 | the deleted keys contain every tag and every key recorded under a named table, and nothing else |
| DrizzleCache.EmptyMutateIsNoOp | src/drizzleCache.ts:51-100 | `onMutate` with no tags and no tables leaves the store and the index unchanged |
| DrizzleCache.MutateTwiceIsMutateOnce | src/drizzleCache.ts:51-100 | repeating an `onMutate` deletes nothing more and leaves the index as the first call left it |
| DrizzleCache.TrackedSubset | src/drizzleCache.ts:28-30 | removing stored keys (expiry on read) keeps every remaining key recorded under its tables |
| DrizzleCache.TrackedAfterPut | src/drizzleCache.ts:41-48 | after `put`, every stored key, the new one included, is recorded under each table its value came from |
| DrizzleCache.TrackedAfterMutate | src/drizzleCache.ts:67-99 | after `onMutate`, every surviving key is still recorded under its tables, and no surviving key depends on a named table |
| DrizzleCache.DrizzleLRUCache.constructor | src/drizzleCache.ts:14-22 | the store starts empty, with capacity `max ?? 5000` and TTL `ttl ?? 1000`; the index starts empty |
| DrizzleCache.DrizzleLRUCache.Get | src/drizzleCache.ts:28-30 | returns the store's fresh value for the key; the store's recency or expiry update is the only change; the invariant is kept |
| DrizzleCache.DrizzleLRUCache.Put | src/drizzleCache.ts:32-49 | the store becomes `set` with the resolved TTL; the index records the key under every given table; the invariant is kept |
| DrizzleCache.DrizzleLRUCache.OnMutate | src/drizzleCache.ts:51-100 | the store loses exactly the doomed keys; each named table's set is emptied; the invariant is kept, and no surviving key depends on a named table |
| DrizzleCache.DeleteTags | src/drizzleCache.ts:82-85 | deleting the tags one by one equals deleting the set of all tags |
| DrizzleCache.DeleteKeys | src/drizzleCache.ts:87-90 | deleting the collected keys one by one, in any order, equals deleting them all at once |
| TableIndex.RecordAll | src/drizzleCache.ts:43-48 | after recording, the index covers the old tables and the given ones; each given table's set gains the key, and every other set is unchanged |
| TableIndex.RecordKey | src/drizzleCache.ts:43-48 | the recording loop computes `RecordAll` |
| TableIndex.RecordAgainNoChange | src/drizzleCache.ts:43-48 | recording a key under tables it is already recorded under changes nothing |
| TableIndex.RecordIdempotent | src/drizzleCache.ts:43-48 | recording the same key under the same tables twice equals recording once |
| TableIndex.CollectKeys | src/drizzleCache.ts:67-80 | the collected keys include every key recorded under a named table and nothing else; tables without a set contribute nothing |
| TableIndex.CollectStep | src/drizzleCache.ts:69-80 | collecting one more table adds exactly that table's keys |
| TableIndex.AddAll | src/drizzleCache.ts:77-79 | the inner loop adds exactly the keys of one set |
| TableIndex.CollectDependents | src/drizzleCache.ts:67-80 | the collecting loop computes `CollectKeys` |
| TableIndex.ClearTables | src/drizzleCache.ts:92-99 | every named table with a set is emptied; other tables are untouched; no set is created |
| TableIndex.ClearNamed | src/drizzleCache.ts:92-99 | the clearing loop computes `ClearTables` |
| TableIndex.CollectAfterClear | src/drizzleCache.ts:67-99 | once the named tables are cleared, collecting them again finds no keys |
| TableIndex.ClearIdempotent | src/drizzleCache.ts:92-99 | clearing the same tables twice equals clearing once |
| TableIndex.RecordAllAsWritten | src/drizzleCache.ts:10-48 | the recording loop over a plain object initialised to `{}`: a table name inherited from `Object.prototype` with no own entry throws a TypeError; every other name records the key as the dictionary would |
| TableIndex.InheritedNameThrows | src/drizzleCache.ts:10-48 | with the index as a plain object, recording under any inherited property name throws a TypeError |
| TableIndex.ConstructorTableThrows | src/drizzleCache.ts:10-48 | the concrete case: a query that read a table named `constructor` makes `put` throw |
| TableIndex.AsWrittenAgrees | src/drizzleCache.ts:10-48 | for every other table name, the plain-object version records exactly what `RecordAll` records |
| Helpers.AlphabetIsAlphanumeric | src/helpers.ts:7-8 | the alphabet has 62 characters, each an ASCII letter or digit |
| Helpers.CharIndex | src/helpers.ts:11 | `floor(r * 62)` for a draw `r` in [0, 1) is a valid index into the alphabet |
| Helpers.GenerateUniqueString | src/helpers.ts:6-15 | the result has `length` characters (none for a negative length); the i-th is the alphabet character the i-th draw picks; each is a letter or digit; for a length from 3 to 32 the result is a valid slug |
| Helpers.FoldCase | src/helpers.ts:35 | under the `i` flag an ASCII letter folds to a lower-case letter, and digits stay digits |
| Helpers.RepeatIff | src/helpers.ts:19 | `cls{lo,hi}` matches exactly the strings of `lo` to `hi` characters of the class |
| Helpers.IsValidSlug | src/helpers.ts:17-20 | a slug is valid when it is non-empty and matches `^[\w-]{3,32}$`, written as bounded repetition of the class |
| Helpers.IsValidSlugIff | src/helpers.ts:17-20 | a slug is valid exactly when it has 3 to 32 characters, each a letter, digit, `_` or `-` |
| Helpers.LabelMatches | src/helpers.ts:35 | the label sub-pattern: one alphanumeric character, or an alphanumeric first and last character around at most 61 alphanumerics or hyphens, in either case |
| Helpers.HostMatches | src/helpers.ts:35 | the host part: a label, or a label, a dot and a host, splitting at the first dot |
| Helpers.DomainMatches | src/helpers.ts:35 | the whole pattern: a host, optionally followed by `:` and one or more digits, splitting at the first colon |
| Helpers.IsValidDomain | src/helpers.ts:32-37 | a domain is valid when it is non-empty, matches the pattern, and is at most 253 characters long |
| Helpers.LabelMatchesIff | src/helpers.ts:35 | the label pattern matches exactly strings of 1 to 63 letters, digits and hyphens that neither begin nor end with a hyphen, in either case |
| Helpers.HostComplete | src/helpers.ts:35 | valid labels joined with dots match the host part of the pattern |
| Helpers.HostSound | src/helpers.ts:35 | whatever the host part matches is valid labels joined with dots |
| Helpers.DigitsMatchIff | src/helpers.ts:35 | the port part matches exactly the non-empty digit strings |
| Helpers.ValidDomainHasSyntax | src/helpers.ts:32-37 | a valid domain is one or more labels joined with dots, with an optional `:` and digits |
| Helpers.SyntaxIsValidDomain | src/helpers.ts:32-37 | labels joined with dots, with an optional port suffix, at most 253 characters in all, form a valid domain |
| Helpers.IsValidDomainIff | src/helpers.ts:32-37 | a domain is valid exactly when it is at most 253 characters long and has that shape |
| Helpers.ValidDomainBounds | src/helpers.ts:33-36 | the empty string is rejected; a valid domain, port included, has 1 to 253 characters |

## Left out

- The `lru-cache` library itself is not part of this model. Its behaviour as used here is the abstract `Store`:
  - eviction of the least recently used key on a full store;
  - refresh of recency on `get` and `set`;
  - lazy removal of stale entries on `get`.

  Not modelled: its internal linked list, size accounting, disposal hooks and background purging, and `set` with an `undefined` value, which the library treats as a delete.
- DrizzleCache.DrizzleLRUCache.constructor: requires a capacity of at least 1 when `max` is given. A `max` of 0 is not modelled: together with the TTL that is always passed, the library then builds a cache with no size limit. A negative or non-integer `max`, which the library rejects, is not modelled either. `LruStore.Empty` has the same requirement.
- `strategy()` only returns the constant `"all"`, read by the ORM. It is left out.
- `isValidUrl` delegates to the platform's WHATWG `URL` parser, which is not part of this model.
- `errorNotification` only logs through `pino`, so it is I/O and left out.
- `Math.random()` is an oracle parameter `random` with values in [0, 1): the i-th draw is `random(i)`.
- The clock the library reads is the `now` parameter.
- `onMutate`'s tables may be ORM `Table` objects, which `getTableName` turns into names. The model takes the names directly; `Names` covers a missing argument, one name, or a list of names.
- Loose typing is not modelled: a `length` that is not an integer, `NaN`, a non-numeric `ex`, and the `typeof` tests of the validators. Numbers are integers and strings are strings.
- `put` and `onMutate` are `async` but never await, so the model runs each call to completion. Interleaving is not modelled.
- The store is held by value. An update replaces it rather than mutating a shared record.
- The class's loops are module-level methods that `Put` and `OnMutate` call:
  - `RecordKey`, `CollectDependents` and `AddAll`;
  - `DeleteTags` and `DeleteKeys`;
  - `ClearNamed`.
- The `TypeError` that `onMutate` also raises for an inherited table name (the inherited member is not iterable) is not modelled. Only the `put` path of that finding is.
- Routing, persistence, and the database schema and queries around the core are left out.

## Findings

| source | as written | input that shows it | evidently intended | confidence | as-written member | corrected member |
|---|---|---|---|---|---|---|
| src/drizzleCache.ts:10-48 | `usedTablesPerKey` is a plain object `{}`. For a table name such as `constructor` or `__proto__`, `!this.usedTablesPerKey[table]` sees the inherited member, so no `Set` is created, and `.add(key)` then throws a TypeError | `put("q", rows, ["constructor"], false)` on a fresh cache | a dictionary with no inherited keys (a `Map` or `Object.create(null)`), so that every table name gets its own set | not executed | TableIndex.RecordAllAsWritten | TableIndex.RecordAll |
