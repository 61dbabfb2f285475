# RedisCache, modelled in Dafny

A model of the `RedisCache` class of coa-redis-cache: a read-through
(cache-aside) cache over a key-value store. It has three parts:

- **Key namespacer** (`Keys`). `key(id)` lower-cases `prefix + ':' + id`.
- **Codec** (`Codec`). `encode` wraps a value in a one-element JSON array and
  turns `undefined` into `null`. `decode` unwraps it. An absent, empty or
  unparseable entry decodes to `undefined`, the miss marker, and never to an
  error. JSON text is kept abstract: an entry is either a well-formed array,
  given by its elements, or garbage.
- **Store operations and orchestrators** (`Store`, `Batch`, `Cache`). The class
  `Cache.RedisCache` holds the store as a mutable field `store: map<string, Entry>`.
  Its methods `Set`, `MSet`, `Get`, `MGet`, `Delete`, `Clear`, `Warp` and
  `MWarp` change or read that field as the source's methods change or read
  Redis. `Batch` holds the pure functions that specify `mGet` and `mWarp`:
  `CachedMap` (what `mGet` returns, without the early exit recorded under
  "## Findings"), `Misses` (the `dataIds` handed to the
  worker) and `FillNulls` (the negative-caching pass). The pipeline of
  `mSet` is a sequence of `SET` commands, and `Cache.Apply` is the store
  after it runs.

`mSet` and `mWarp` are written as a few steps, each a method with its own
contract: `Queue` and `Exec` for `mSet`; `Lookup`, `CollectMisses`, `Refill`,
`FillMisses` and `WriteBack` for `mWarp`.

The worker (producer) is a function argument: `() -> Value` for `warp` and
`seq<string> -> map<string, Value>` for `mWarp`. An extra out-parameter
`called` says whether it was invoked. The configured `prefix` and default
`ttl` are constants of the object. The source's default arguments
(`ms = config.ttl`, `force = false`, `prefix = ''`, `ids = []`) are Dafny
default parameter values.

`Scenarios` holds callers that use only the class's contracts:

- negative caching makes a second `mWarp` or `warp` call a hit;
- a forced `mWarp` hands every id to the worker;
- ids `a`, `b`, `c` with a worker that resolves only `a` give `{a: 1, b: null, c: null}`;
- `clear("x")` keeps `y-1`;
- bad parameters are refused.

Three behaviours of the code a reader may not expect:

- The result of `mWarp` has exactly the requested ids as keys only when the
  worker answers for no other id. `_.assign` also copies any extra keys
  the worker returns, so the key set is the requested ids plus the worker's
  keys (`Batch.MergeKeys`).
- `warp` with `ms <= 0` raises nothing. The write-back is guarded by `ms > 0 &&`, so
  the value is simply not cached.
- Every requested id has a defined value after `mWarp`, on one condition: the
  worker may answer `undefined` only for ids it was asked about. An extra id
  answered `undefined` overrides a hit in the merge (`Batch.MergeCovers`).

## Model

| member | source | states |
|---|---|---|
| Codec.Encode | src/RedisCache.ts:111-114 | decoding the encoding gives back the value with `undefined` turned into `null`, so an encoded entry is never a miss |
| Codec.DecodeEncode | src/RedisCache.ts:111-124 | `decode(encode(v)) == v` for every defined `v` |
| Codec.DecodeEncodeUndefined | src/RedisCache.ts:112-113 | `decode(encode(undefined)) == null` |
| Codec.Normalize | src/RedisCache.ts:112 | `undefined` becomes `null` and every other value is kept; the result is `null` exactly for `null` and `undefined` |
| Codec.Decode | src/RedisCache.ts:116-124 | decoding is total: the result is `undefined` exactly when the entry is absent or empty, does not parse, or is an empty array; otherwise it is the array's first element |
| Keys.ToLower | src/RedisCache.ts:108 | lower-casing keeps the length and lower-cases each character |
| Keys.Key | src/RedisCache.ts:107-109 | the physical key is the lower-cased prefix, `:`, then the lower-cased id |
| Keys.KeyIsLowerCase | src/RedisCache.ts:107-109 | a physical key is already lower-case |
| Keys.KeyCaseInsensitive | src/RedisCache.ts:107-109 | two ids share a physical key if and only if they are equal after lower-casing |
| Keys.ClearPatternSelects | src/RedisCache.ts:101-102 | the pattern `key(sub + '*')` selects exactly the keys that start with `key(sub)` |
| Keys.ClearSelectsId | src/RedisCache.ts:101-103 | `clear(sub)` selects the key of `id` if and only if lower-cased `sub` is a prefix of lower-cased `id` |
| Keys.ClearStaysInNamespace | src/RedisCache.ts:101-103 | `clear` never selects a key outside `prefix:` |
| Keys.MatchesGlob | src/RedisCache.ts:102 | the `KEYS` pattern of `clear`: with a trailing `*`, the keys that start with what precedes it; otherwise the pattern itself |
| Store.Cached | src/RedisCache.ts:45 | what `get(id)` reads from a store: the decoded entry at `key(id)` |
| Store.PhysicalKeys | src/RedisCache.ts:50 | `ids.map(key)`: one key per id, the `i`-th key being `key(ids[i])` |
| Store.FetchMany | src/RedisCache.ts:50 | the `MGET` reply: one answer per key, the `i`-th being the entry stored at the `i`-th key, absent entries included |
| Store.KeySet | src/RedisCache.ts:97 | the physical keys that `delete(ids)` hands to `DEL` |
| Store.MSetDone | src/RedisCache.ts:33-41 | the store after a successful `mSet`: the keys are the old ones plus the targeted ones, an untargeted key is unchanged, and a targeted key holds the encoding of one entry with that key, with time-to-live `ms` |
| Store.SetEffect | src/RedisCache.ts:22-25 | after `set(id, v)` the id and its case variants read `v` (`undefined` as `null`); every other id reads as before |
| Store.MSetHit | src/RedisCache.ts:33-41 | every id written by `mSet` reads back as a defined value |
| Store.MSetExact | src/RedisCache.ts:33-41 | without case collisions among the ids, `mSet` stores each id's own encoded value with time-to-live `ms` |
| Store.MSetFrame | src/RedisCache.ts:33-41 | an id that collides with no written id reads the same after `mSet` |
| Store.MSetKeepsHits | src/RedisCache.ts:33-41 | a hit stays a hit across `mSet` |
| Store.WriteBackHits | src/RedisCache.ts:79-87 | after the write-back each requested id is a hit if it was written or already hit |
| Batch.CachedMapAsWritten | src/RedisCache.ts:49-54 | `mGet` as written: every id it keeps reads what `get` reads, the first id is always kept, and with no cached `false` among the ids it is the complete `CachedMap` |
| Batch.FalseStopsMGet | src/RedisCache.ts:52 | as written, with `a` cached as `false` and `b` as `1`, `mGet(["a", "b"])` lacks `b`, so `mWarp` hands the cached `b` to the worker; the complete `mGet` leaves no miss |
| Batch.CachedMapPositional | src/RedisCache.ts:49-54 | the `i`-th `MGET` answer, decoded, is the value of the `i`-th id in the `mGet` result, repeated ids included, and the result has no other key |
| Batch.CachedMapUnique | src/RedisCache.ts:49-54 | a map with the requested ids as keys, each with what `get` reads, is the `mGet` result |
| Batch.IsMiss | src/RedisCache.ts:74 | `result[id] === undefined` on a map: the id is absent or maps to `undefined` |
| Batch.Misses | src/RedisCache.ts:71-75 | an id reaches the worker if and only if it was requested and misses; never more ids than requested |
| Batch.MissesAppend | src/RedisCache.ts:72-75 | the misses keep the order of the requested ids: those of a concatenation are the concatenation of those of its parts |
| Batch.MissesAll | src/RedisCache.ts:72-75 | when every id misses, the worker receives all the ids in their original order |
| Batch.MissesNone | src/RedisCache.ts:72-77 | when no id misses, the worker receives nothing |
| Batch.ForcedMissesAreAllIds | src/RedisCache.ts:69-75 | a forced call hands every requested id, in order, to the worker |
| Batch.NoMissesWhenAllHit | src/RedisCache.ts:69-77 | when every requested id reads a defined value there are no misses, so the worker is not called |
| Batch.SomeMissWhenOneMisses | src/RedisCache.ts:69-77 | one uncached requested id is enough for the worker to be called |
| Batch.FillNulls | src/RedisCache.ts:81-83 | after the negative-caching pass, every miss the worker left out or left `undefined` is `null` and every other answer is kept |
| Batch.FillNullsNotEmpty | src/RedisCache.ts:79-87 | with at least one miss the filled answer has an entry, so the modelled `mSet` of it is not refused as empty |
| Batch.FillCoversMisses | src/RedisCache.ts:72-83 | every requested id either hit or is a key of the filled answer |
| Batch.MergeEntries | src/RedisCache.ts:88-89 | in the `mWarp` result the worker wins: a resolved answer is kept, an unresolved miss is `null`, a key the worker answered `undefined` unasked is `undefined`, and a cached key the worker did not answer and that was not a miss keeps its value |
| Batch.MergeOverridesBase | src/RedisCache.ts:88-89 | when every cached key was handed to the worker, the result is the filled answer alone |
| Batch.MergeCovers | src/RedisCache.ts:79-92 | every requested id is in the `mWarp` result with a defined value, if the worker answers `undefined` only for ids it was asked about |
| Batch.MergeKeys | src/RedisCache.ts:88-92 | the `mWarp` result's keys are the requested ids plus the worker's keys; exactly the ids when the worker keeps to them |
| Batch.MissesAsWritten | src/RedisCache.ts:72-75 | the `dataIds` loop as written, with plain-object lookup that falls back to inherited properties |
| Batch.ForcedInheritedNameSkipped | src/RedisCache.ts:69-75 | as written, a forced `mWarp(["constructor"])` hands nothing to the worker, unlike the corrected `Misses` |
| Batch.FillNullsAsWritten | src/RedisCache.ts:81-83 | the negative-caching loop as written, with plain-object lookup that finds inherited properties |
| Batch.InheritedNameNotFilled | src/RedisCache.ts:79-87 | as written, a worker answer `{}` for the miss `toString` stays `{}`, so the write-back `mSet({})` is refused, unlike the corrected `FillNulls` |
| Cache.LastWrite | src/RedisCache.ts:36-40 | the last queued command writing a key: none exactly when no command writes it; otherwise a command of the pipeline for that key with no later one for it |
| Cache.Apply | src/RedisCache.ts:40 | after the pipeline runs, a key is present if it was or some command writes it, and it holds what its last command wrote, or its old entry if none did |
| Cache.ApplyLaterWins | src/RedisCache.ts:40 | of two `SET`s of one key the later decides what it holds, whatever comes before and whatever other keys follow |
| Cache.PipelineStep | src/RedisCache.ts:36-38 | queuing one more entry's `SET` keeps the pipeline holding a `SET` for every visited entry and no other command |
| Cache.PipelineEmpty | src/RedisCache.ts:36-39 | the pipeline is empty exactly when `values` is |
| Cache.PipelineWrites | src/RedisCache.ts:36-40 | a key is written by the pipeline exactly when it is the key of some entry, and its last write is that of such an entry |
| Cache.PipelineDone | src/RedisCache.ts:36-40 | running the pipeline of `mSet` leaves the store as `MSetDone` describes |
| Cache.CollectMisses | src/RedisCache.ts:72-75 | the loop that pushes `dataIds` computes `Misses` |
| Cache.FillMisses | src/RedisCache.ts:81-83 | the loop that writes `null` into `dataResult` computes `FillNulls` |
| Cache.RedisCache.constructor | src/RedisCache.ts:10-13 | the cache starts with the configured prefix, default time-to-live and store |
| Cache.RedisCache.Set | src/RedisCache.ts:22-25 | `ms <= 0` fails with `InvalidParam` and writes nothing; otherwise only `key(id)` changes, to `encode(value)` with time-to-live `ms` |
| Cache.RedisCache.MSet | src/RedisCache.ts:33-41 | `ms <= 0`, then an empty `values`, fail with `InvalidParam` and write nothing; otherwise every targeted key holds an entry's encoding and no other key changes |
| Cache.RedisCache.Queue | src/RedisCache.ts:36-38 | the `_.forEach` of `mSet` queues as many commands as `values` has entries: a `SET key(id) encode(value) PX ms` for every entry and no other command |
| Cache.RedisCache.Exec | src/RedisCache.ts:40 | running the pipeline applies its `SET`s in order, so a key written twice holds its last write (`Cache.Apply`) |
| Cache.RedisCache.Get | src/RedisCache.ts:44-46 | returns the decoded entry at `key(id)` and changes nothing |
| Cache.RedisCache.MGet | src/RedisCache.ts:49-54 | the result's keys are exactly the requested ids, each with its decoded entry; the store is unchanged |
| Cache.RedisCache.Warp | src/RedisCache.ts:57-64 | a non-forced hit is returned without calling the worker or writing; otherwise the worker's value is returned and stored when `ms > 0`, after which the id is a hit |
| Cache.RedisCache.MWarp | src/RedisCache.ts:67-93 | the worker is called exactly when there are misses, and with exactly the misses in order; with none, the result is the `mGet` result and the store is unchanged; otherwise the result is the merge and, when `ms > 0`, the filled answer is written, after which every requested id is a hit |
| Cache.RedisCache.Lookup | src/RedisCache.ts:69 | the starting `result` of `mWarp`: `{}` when forced, else the `mGet` result |
| Cache.RedisCache.Refill | src/RedisCache.ts:78-91 | with some miss, the result is the merge of the filled worker answer; it is written back when `ms > 0`, after which every requested id is a hit, and nothing is written otherwise |
| Cache.RedisCache.WriteBack | src/RedisCache.ts:85-87 | the `mSet` of the filled answer succeeds, leaves the store as `MSetDone` describes, and makes every requested id a hit |
| Cache.RedisCache.Delete | src/RedisCache.ts:96-98 | removes exactly the physical keys of `ids` and, for a non-empty list, answers how many existed |
| Cache.RedisCache.Clear | src/RedisCache.ts:101-104 | removes exactly the keys the pattern `key(sub + '*')` selects, keeps every other entry as it was, and answers how many were removed |
| Scenarios.MWarpTwice | src/RedisCache.ts:67-93 | after an `mWarp` with `ms > 0`, a second non-forced `mWarp` on the same ids does not call the worker |
| Scenarios.WarpTwice | src/RedisCache.ts:57-64 | after a `warp` with `ms > 0`, a second non-forced `warp` is a hit with a defined value, even when the worker answered `undefined` |
| Scenarios.ForcedMWarp | src/RedisCache.ts:67-92 | a forced `mWarp` calls the worker with every id and returns its filled answer |
| Scenarios.MWarpAllMiss | src/RedisCache.ts:67-92 | with nothing cached, `mWarp` calls the worker with every id and returns its filled answer |
| Scenarios.OnlyOneResolved | src/RedisCache.ts:81-83 | a worker answer `{a: 1}` for `a`, `b`, `c` is filled to `{a: 1, b: null, c: null}` |
| Scenarios.OnlyOneResolvedMerged | src/RedisCache.ts:67-92 | for `a`, `b`, `c` uncached and a worker resolving only `a`, all three are misses and the result is `{a: 1, b: null, c: null}` |
| Scenarios.ClearIsScoped | src/RedisCache.ts:101-104 | under prefix `p`, `clear("x")` removes the entry of `x-1` and keeps that of `y-1` |
| Scenarios.RejectsBadParameters | src/RedisCache.ts:22-41 | `set(id, v, 0)`, `mSet({a: 1}, -5)` and `mSet({}, 1000)` fail with `InvalidParam` and leave the store as it was |

## Left out

- The Redis client (`ioredis`), connections, and the pipeline's round trip and atomicity. The store is the map field `store`. `RedisBin` is not part of this model: the constructor takes the prefix, the default time-to-live and the initial store contents instead.
- Expiry. Each entry records the `PX` time-to-live it was written with, but nothing expires.
- `async`/`await` and concurrency. Every call runs to completion on its own; concurrent callers are not coordinated in the source either.
- Store failures. This includes the store's refusal of an `MGET` or `DEL` with no keys: here `MGet([])` returns an empty map.
- Cache.RedisCache.Delete: states no count for an empty `ids` list, because what the store answers to a `DEL` with no keys is not modelled.
- Cache.RedisCache.MSet: for ids that differ only in letter case, states only that the key holds the value of one of them. Which one wins depends on the enumeration order of the JavaScript object, which is not modelled (`Store.MSetExact` is exact when there is no collision).
- Cache.RedisCache.MSet: `values` is a map and all its entries are written. lodash's `_.forEach` enumerates an object whose `length` property is a non-negative integer as array-like, over the indices `0` to `length - 1`. So in the source `mSet({length: 0})` is refused with `InvalidParam`, and `mSet({length: 2})` writes `key("0")` and `key("1")` as `[null]` instead of `key("length")`.
- Cache.RedisCache.MWarp: the promises that a write-back with `ms > 0` succeeds and makes every requested id a hit do not hold in the source when the filled answer has a `length` property that is a non-negative integer, because of the `_.forEach` behaviour above. A worker answering `{length: 3}` for the miss `length` leaves it uncached; one answering `{length: 0}` makes the write-back, and so `mWarp`, fail.
- Cache.RedisCache.Refill: the same as for `MWarp`.
- Cache.RedisCache.WriteBack: the same as for `MWarp`.
- Cache.RedisCache.MGet: models the complete `mGet`, not the early exit of line 52 recorded under "## Findings". In the source the result lacks every id after the first one that reads `false`.
- Cache.RedisCache.Lookup: the non-forced base is the complete `mGet` result, not the one cut short after a cached `false` (see "## Findings").
- Cache.RedisCache.MWarp: starts from the complete `mGet` result. In the source a cached `false` before another requested id leaves that id out of `mGet`, so it is a miss and goes to the worker although it is cached (see "## Findings").
- Batch.CachedMapPositional: describes the complete `mGet`; in the source the result lacks the ids after the first one that reads `false` (see "## Findings").
- Batch.CachedMapUnique: characterises the complete `mGet` result, which the source's differs from once a cached `false` stops line 52's loop (see "## Findings").
- Batch.NoMissesWhenAllHit: holds of the complete `mGet`; in the source a cached `false` before another requested id makes that id a miss, so the worker is called although every id hits (see "## Findings").
- Scenarios.MWarpTwice: relies on the complete `mGet`; in the source a second call on ids `["a", "b"]` after a worker answered `{a: false}` calls the worker again for `b` (see "## Findings").
- Exceptions thrown by the worker, which abort the write-back. The worker here is a total function.
- Real JSON. Values are `undefined`, `null`, booleans, integers and strings. JavaScript numbers are doubles and are modelled as unbounded integers. `NaN`, `Infinity` and `-Infinity` are not modelled: `JSON.stringify([NaN])` and `JSON.stringify([Infinity])` give `[null]`, so in the source `decode(encode(v))` is `null`, not `v`, for these three numbers, and `Codec.DecodeEncode` holds only because the model has no such values. Nested arrays and objects are not modelled. Stored text that is not a JSON array counts as garbage, including the cases where destructuring a non-array would not throw (a string gives its first character).
- Unicode case mapping. `toLowerCase` is modelled on ASCII letters only.
- Redis glob syntax in `clear`. The pattern is read as a prefix match on what precedes its trailing `*`, and glob metacharacters inside prefixes or ids are not interpreted.
- Other JavaScript object behaviour of the result maps. The model reads them as plain maps. This leaves out inherited names such as `constructor`, apart from the findings below, and it leaves out what assigning the `__proto__` key does in `mGet`.
- In-place mutation of the object the worker returns. The model builds a new map.
- The replies of `set` and `mSet` ("OK" and the pipeline's results) are replaced by a `Status`. The formatting of `coa-error` errors and the `trace` flag are not modelled either.
- src/typings.ts declares types only. test/RedisCache.tset.ts needs a live Redis.

## Findings

| source | as written | input that shows it | evidently intended | confidence | as-written member | corrected member |
|---|---|---|---|---|---|---|
| src/RedisCache.ts:69-75 | a forced `mWarp` starts from the plain object `{}`, and `result[id] === undefined` reads properties inherited from `Object.prototype` | `mWarp(["constructor"], worker, ms, true)`: `{}["constructor"]` is a function, so the id is not a miss, the worker is not called, and the result lacks the id | a forced call hands every requested id to the worker | high (JavaScript property lookup); not executed | Batch.ForcedInheritedNameSkipped | Batch.ForcedMissesAreAllIds |
| src/RedisCache.ts:79-87 | the negative-caching pass tests `dataResult[id] === undefined` on the worker's plain object, which also reads properties inherited from `Object.prototype` | `mWarp(["toString"], () => ({}), 1000)` on an empty store: `dataResult.toString` is inherited, so no `null` is written, the write-back `mSet({})` is refused with `InvalidParam`, and the call fails | every miss the worker did not resolve is cached as `null` | high (JavaScript property lookup); not executed | Batch.InheritedNameNotFilled | Batch.FillNulls |
| src/RedisCache.ts:52 | the callback of `_.forEach` has a concise body, so it returns the decoded value it assigns, and lodash stops iterating when a callback returns `false` | the store holds `[false]` for `a` and `[1]` for `b`: `mGet(["a", "b"])` returns `{a: false}`, and `mWarp(["a", "b"], worker)` calls `worker(["b"])` although `b` is cached | `mGet` decodes every requested id, so a fully cached call never reaches the worker | high (lodash `arrayEach` breaks on `false`); not executed | Batch.FalseStopsMGet | Batch.NoMissesWhenAllHit |
