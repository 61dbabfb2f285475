/** The pure part of `mGet` and `mWarp`: the result map `mGet` builds, the
    misses `mWarp` hands to its worker, and its negative-caching pass. */
module Batch {
  import opened Codec
  import opened Keys
  import opened Store

  /** What `mGet(ids)` returns over `db`: each requested id, once, with the
      value `get` would read for it. */
  function CachedMap(db: Db, prefix: string, ids: seq<string>): map<string, Value>
  {
    map id | id in ids :: Cached(db, prefix, id)
  }

  /** `mGet` as written: the callback of `_.forEach` returns the value it
      assigns, and lodash stops iterating when a callback returns `false`, so
      the ids after the first one that reads `false` are left out. */
  function CachedMapAsWritten(db: Db, prefix: string, ids: seq<string>): (m: map<string, Value>)
    ensures forall id :: id in m ==> id in ids && m[id] == Cached(db, prefix, id)
    ensures ids != [] ==> ids[0] in m
    ensures (forall id :: id in ids ==> Cached(db, prefix, id) != Bool(false)) ==> m == CachedMap(db, prefix, ids)
  {
    if ids == [] then map[]
    else
      var v := Cached(db, prefix, ids[0]);
      if v == Bool(false) then map[ids[0] := v]
      else CachedMapAsWritten(db, prefix, ids[1..])[ids[0] := v]
  }

  /** With `a` cached as `false` and `b` as `1`, `mGet(["a", "b"])` as
      written returns `{a: false}`, and `mWarp` then hands the cached `b` to
      the worker; the complete `mGet` has no miss. */
  lemma FalseStopsMGet(prefix: string)
    ensures var db := map[Key(prefix, "a") := Entry(Encode(Bool(false)), 1000),
                          Key(prefix, "b") := Entry(Encode(Num(1)), 1000)];
            var written := CachedMapAsWritten(db, prefix, ["a", "b"]);
            && "b" !in written
            && Misses(["a", "b"], written) == ["b"]
            && Misses(["a", "b"], CachedMap(db, prefix, ["a", "b"])) == []
  {
    var db := map[Key(prefix, "a") := Entry(Encode(Bool(false)), 1000),
                  Key(prefix, "b") := Entry(Encode(Num(1)), 1000)];
    KeyCaseInsensitive(prefix, "a", "b");
    assert ToLower("a")[0] != ToLower("b")[0];
    assert Cached(db, prefix, "a") == Bool(false);
    assert Cached(db, prefix, "b") == Num(1);
    var written := CachedMapAsWritten(db, prefix, ["a", "b"]);
    assert written == map["a" := Bool(false)];
    assert ["a", "b"][..1] == ["a"];
    assert ["a"][..0] == [];
    NoMissesWhenAllHit(db, prefix, ["a", "b"]);
  }

  /** The `i`-th answer of the `MGET` belongs to the `i`-th id, repeated ids
      included, and the result has no other key. */
  lemma CachedMapPositional(db: Db, prefix: string, ids: seq<string>)
    ensures forall id :: id in CachedMap(db, prefix, ids) ==> id in ids
    ensures forall i :: 0 <= i < |ids| ==>
              ids[i] in CachedMap(db, prefix, ids) &&
              CachedMap(db, prefix, ids)[ids[i]] == Decode(FetchMany(db, PhysicalKeys(prefix, ids))[i])
  {
  }

  /** A map with the requested ids as keys, each with what `get` reads, is
      the `mGet` result. */
  lemma CachedMapUnique(db: Db, prefix: string, ids: seq<string>, m: map<string, Value>)
    requires m.Keys == set id | id in ids
    requires forall id :: id in m ==> m[id] == Cached(db, prefix, id)
    ensures m == CachedMap(db, prefix, ids)
  {
  }

  /** `m[id] === undefined` for a map built by the cache itself. */
  predicate IsMiss(m: map<string, Value>, id: string)
  {
    id !in m || m[id] == Undefined
  }

  /** The `dataIds` of `mWarp`: the ids that miss in `base`, in the order of
      `ids` and with their repetitions. */
  function Misses(ids: seq<string>, base: map<string, Value>): (r: seq<string>)
    ensures forall id :: id in r <==> id in ids && IsMiss(base, id)
    ensures |r| <= |ids|
  {
    if ids == [] then []
    else
      var last := ids[|ids| - 1];
      Misses(ids[..|ids| - 1], base) + (if IsMiss(base, last) then [last] else [])
  }

  /** The misses of a concatenation are the misses of each part, in order. */
  lemma {:induction false} MissesAppend(a: seq<string>, b: seq<string>, base: map<string, Value>)
    ensures Misses(a + b, base) == Misses(a, base) + Misses(b, base)
  {
    if b == [] {
      assert a + b == a;
    } else {
      var b' := b[..|b| - 1];
      assert (a + b)[..|a + b| - 1] == a + b';
      MissesAppend(a, b', base);
    }
  }

  /** When every id misses, the worker is handed all of them, in order. */
  lemma {:induction false} MissesAll(ids: seq<string>, base: map<string, Value>)
    requires forall id :: id in ids ==> IsMiss(base, id)
    ensures Misses(ids, base) == ids
  {
    if ids != [] {
      var init, last := ids[..|ids| - 1], ids[|ids| - 1];
      assert ids == init + [last];
      assert IsMiss(base, last);
      MissesAll(init, base);
    }
  }

  /** When no id misses, the worker is handed nothing. */
  lemma {:induction false} MissesNone(ids: seq<string>, base: map<string, Value>)
    requires forall id :: id in ids ==> !IsMiss(base, id)
    ensures Misses(ids, base) == []
  {
    if ids != [] {
      var init, last := ids[..|ids| - 1], ids[|ids| - 1];
      assert ids == init + [last];
      assert !IsMiss(base, last);
      MissesNone(init, base);
    }
  }

  /** With `force`, `mWarp` starts from `{}`: every requested id goes to the
      worker, in its original order. */
  lemma ForcedMissesAreAllIds(ids: seq<string>)
    ensures Misses(ids, map[]) == ids
  {
    MissesAll(ids, map[]);
  }

  /** When every requested id already reads a defined value, there are no
      misses and the worker is not called. */
  lemma NoMissesWhenAllHit(db: Db, prefix: string, ids: seq<string>)
    requires forall id :: id in ids ==> Cached(db, prefix, id) != Undefined
    ensures Misses(ids, CachedMap(db, prefix, ids)) == []
  {
    MissesNone(ids, CachedMap(db, prefix, ids));
  }

  /** Conversely, a miss among the requested ids always reaches the worker. */
  lemma SomeMissWhenOneMisses(db: Db, prefix: string, ids: seq<string>, id: string)
    requires id in ids && Cached(db, prefix, id) == Undefined
    ensures Misses(ids, CachedMap(db, prefix, ids)) != []
  {
    assert id in Misses(ids, CachedMap(db, prefix, ids));
  }

  /** `dataResult` after the negative-caching pass of `mWarp`: each miss the
      worker left out or answered with `undefined` now maps to `null`; every
      other entry of the worker's answer, requested or not, is kept. */
  function FillNulls(produced: map<string, Value>, missIds: seq<string>): (filled: map<string, Value>)
    ensures filled.Keys == produced.Keys + set id | id in missIds
    ensures forall k :: k in filled ==>
              filled[k] == if k in missIds && IsMiss(produced, k) then Null else produced[k]
    ensures forall id :: id in missIds ==> filled[id] != Undefined
  {
    if missIds == [] then produced
    else
      var d := FillNulls(produced, missIds[..|missIds| - 1]);
      var id := missIds[|missIds| - 1];
      if IsMiss(d, id) then d[id := Null] else d
  }

  /** After the negative-caching pass, every requested id either hit in
      `base` or is a key of the filled answer. */
  lemma FillCoversMisses(ids: seq<string>, base: map<string, Value>, produced: map<string, Value>)
    ensures forall id :: id in ids ==> id in FillNulls(produced, Misses(ids, base)) || !IsMiss(base, id)
  {
  }

  /** With at least one miss, the filled answer has an entry, so writing it
      back is never refused as empty. */
  lemma FillNullsNotEmpty(produced: map<string, Value>, missIds: seq<string>)
    requires missIds != []
    ensures |FillNulls(produced, missIds)| > 0
  {
    assert missIds[0] in FillNulls(produced, missIds);
  }

  /** What `mWarp` returns when the worker is called: the cached hits,
      overridden by the worker's answer after the negative-caching pass. */
  function Merge(base: map<string, Value>, produced: map<string, Value>, missIds: seq<string>): map<string, Value>
  {
    base + FillNulls(produced, missIds)
  }

  /** The worker wins: each key of the result comes from the worker's
      answer when it resolved it, is `null` when it is a miss the worker did
      not resolve, is `undefined` when the worker answered `undefined` for
      it unasked, and is the cached value otherwise. */
  lemma MergeEntries(base: map<string, Value>, produced: map<string, Value>, missIds: seq<string>)
    ensures var r := Merge(base, produced, missIds);
            && r.Keys == base.Keys + produced.Keys + (set id | id in missIds)
            && (forall k :: k in produced && !IsMiss(produced, k) ==> r[k] == produced[k])
            && (forall k :: k in missIds && IsMiss(produced, k) ==> r[k] == Null)
            && (forall k :: k in produced && IsMiss(produced, k) && k !in missIds ==> r[k] == Undefined)
            && (forall k :: k in base && k !in produced && k !in missIds ==> r[k] == base[k])
  {
  }

  /** When every id is handed to the worker, the filled answer overrides the
      whole of `base`, and the result is the filled answer alone. */
  lemma MergeOverridesBase(base: map<string, Value>, produced: map<string, Value>, missIds: seq<string>)
    requires forall id :: id in base ==> id in missIds
    ensures Merge(base, produced, missIds) == FillNulls(produced, missIds)
  {
    var filled := FillNulls(produced, missIds);
    assert (base + filled).Keys == filled.Keys;
  }

  /** Every requested id appears in the result of `mWarp` with a defined
      value, provided the worker answers `undefined` only for ids it was asked
      about. */
  lemma MergeCovers(ids: seq<string>, base: map<string, Value>, produced: map<string, Value>)
    requires forall k :: k in produced && produced[k] == Undefined ==> k in Misses(ids, base)
    ensures forall id :: id in ids ==>
              id in Merge(base, produced, Misses(ids, base)) &&
              Merge(base, produced, Misses(ids, base))[id] != Undefined
  {
    var misses := Misses(ids, base);
    var filled := FillNulls(produced, misses);
    forall id | id in ids
      ensures id in base + filled && (base + filled)[id] != Undefined
    {
      if id !in misses {
        assert id in base && base[id] != Undefined;
      }
    }
  }

  /** The keys of the result of `mWarp` are the requested ids and whatever
      else the worker answered for; exactly the requested ids when the worker
      keeps to them. */
  lemma MergeKeys(db: Db, prefix: string, ids: seq<string>, produced: map<string, Value>)
    ensures var base := CachedMap(db, prefix, ids);
            Merge(base, produced, Misses(ids, base)).Keys == (set id | id in ids) + produced.Keys
    ensures var base := CachedMap(db, prefix, ids);
            produced.Keys <= (set id | id in ids) ==>
              Merge(base, produced, Misses(ids, base)).Keys == set id | id in ids
  {
  }

  /** Names every plain JavaScript object inherits from `Object.prototype`. */
  const ObjectPrototypeNames: set<string> :=
    {"constructor", "hasOwnProperty", "isPrototypeOf", "propertyIsEnumerable",
     "toLocaleString", "toString", "valueOf", "__proto__", "__defineGetter__",
     "__defineSetter__", "__lookupGetter__", "__lookupSetter__"}

  /** `obj[id] === undefined` on a plain JavaScript object, as the source
      writes it: an own property is read first, then an inherited one. */
  predicate JsUndefined(obj: map<string, Value>, id: string)
  {
    if id in obj then obj[id] == Undefined else id !in ObjectPrototypeNames
  }

  /** The `dataIds` loop as written, with the lookup of a plain object. */
  function MissesAsWritten(ids: seq<string>, base: map<string, Value>): (r: seq<string>)
    ensures forall id :: id in r <==> id in ids && JsUndefined(base, id)
  {
    if ids == [] then []
    else
      var last := ids[|ids| - 1];
      MissesAsWritten(ids[..|ids| - 1], base) + (if JsUndefined(base, last) then [last] else [])
  }

  /** With `force`, the source starts from `{}`, where `result["constructor"]`
      is inherited and not `undefined`: the id never reaches the worker,
      although a forced call should hand every id to it. */
  lemma ForcedInheritedNameSkipped()
    ensures MissesAsWritten(["constructor"], map[]) == []
    ensures Misses(["constructor"], map[]) == ["constructor"]
  {
    assert "constructor" in ObjectPrototypeNames;
    assert ["constructor"][..0] == [];
  }

  /** The negative-caching loop as written: `dataResult[id] === undefined` on
      the worker's plain object, where an inherited name is found on the
      prototype and is therefore never set to `null`. */
  function FillNullsAsWritten(produced: map<string, Value>, missIds: seq<string>): (filled: map<string, Value>)
    ensures filled.Keys == produced.Keys + set id | id in missIds && JsUndefined(produced, id)
    ensures forall k :: k in filled ==>
              filled[k] == if k in missIds && JsUndefined(produced, k) then Null else produced[k]
  {
    if missIds == [] then produced
    else
      var d := FillNullsAsWritten(produced, missIds[..|missIds| - 1]);
      var id := missIds[|missIds| - 1];
      if JsUndefined(d, id) then d[id := Null] else d
  }

  /** A worker that answers `{}` for the miss `toString`: the loop as written
      finds the inherited `toString` and leaves the answer empty, so the
      write-back `mSet({})` is refused and `mWarp` fails, where the intended
      pass caches `null` for it. */
  lemma InheritedNameNotFilled()
    ensures FillNullsAsWritten(map[], ["toString"]) == map[]
    ensures FillNulls(map[], ["toString"]) == map["toString" := Null]
  {
    assert "toString" in ObjectPrototypeNames;
    assert ["toString"][..0] == [];
  }
}
