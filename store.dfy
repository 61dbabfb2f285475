/** The key-value store behind RedisCache, as a map from physical key to
    entry, and what a read or a batch of writes does to it. */
module Store {
  import opened Codec
  import opened Keys

  /** One stored entry: its text and the `PX` time-to-live, in milliseconds,
      it was written with. Expiry itself is not simulated. */
  datatype Entry = Entry(data: Encoded, ttl: int)

  type Db = map<string, Entry>

  /** The store's `GET`: the text held at `k`, if any. */
  function Raw(db: Db, k: string): Option<Encoded>
  {
    if k in db then Some(db[k].data) else None
  }

  /** `get(id)` read against `db`: the decoded entry at `key(id)`. */
  function Cached(db: Db, prefix: string, id: string): Value
  {
    Decode(Raw(db, Key(prefix, id)))
  }

  /** `ids.map(key)`: the physical keys, in the order of the ids. */
  function PhysicalKeys(prefix: string, ids: seq<string>): (ks: seq<string>)
    ensures |ks| == |ids|
    ensures forall i :: 0 <= i < |ids| ==> ks[i] == Key(prefix, ids[i])
  {
    if ids == [] then [] else PhysicalKeys(prefix, ids[..|ids| - 1]) + [Key(prefix, ids[|ids| - 1])]
  }

  /** The store's `MGET`: one answer per key, in the order of the keys, and
      each the answer `GET` gives for its key. */
  function FetchMany(db: Db, keys: seq<string>): (r: seq<Option<Encoded>>)
    ensures |r| == |keys|
    ensures forall i :: 0 <= i < |keys| ==> r[i] == Raw(db, keys[i])
  {
    if keys == [] then [] else FetchMany(db, keys[..|keys| - 1]) + [Raw(db, keys[|keys| - 1])]
  }

  /** Some id of `values` has the physical key `k`. */
  predicate Targets(prefix: string, values: map<string, Value>, k: string)
  {
    exists id :: id in values && Key(prefix, id) == k
  }

  /** No two ids of `values` differ only in letter case. */
  predicate CaseDistinct(values: map<string, Value>)
  {
    forall a, b :: a in values && b in values && ToLower(a) == ToLower(b) ==> a == b
  }

  /** `after` is `before` once `mSet(values, ms)` has gone through: every
      targeted key holds the encoding of the value of one of the ids that map
      to it, with time-to-live `ms`, and every other key is untouched. */
  ghost predicate MSetDone(before: Db, after: Db, prefix: string, values: map<string, Value>, ms: int)
  {
    && (forall k :: k in after <==> k in before || Targets(prefix, values, k))
    && (forall k :: k in after && !Targets(prefix, values, k) ==> after[k] == before[k])
    && (forall k :: k in after && Targets(prefix, values, k) ==>
          exists id :: id in values && Key(prefix, id) == k && after[k] == Entry(Encode(values[id]), ms))
  }

  /** After a single `set(id, v, ms)`, `id` and its case variants read back
      `v` (with `undefined` as `null`) and every other id reads as before. */
  lemma {:induction false} SetEffect(db: Db, prefix: string, id: string, v: Value, ms: int, other: string)
    ensures Cached(db[Key(prefix, id) := Entry(Encode(v), ms)], prefix, other) ==
              if ToLower(other) == ToLower(id) then Normalize(v) else Cached(db, prefix, other)
  {
    KeyCaseInsensitive(prefix, other, id);
  }

  /** Every id written by `mSet` reads back as a defined value. */
  lemma MSetHit(before: Db, after: Db, prefix: string, values: map<string, Value>, ms: int, id: string)
    requires MSetDone(before, after, prefix, values, ms)
    requires id in values
    ensures Cached(after, prefix, id) != Undefined
  {
    var k := Key(prefix, id);
    assert Targets(prefix, values, k);
    var w :| w in values && Key(prefix, w) == k && after[k] == Entry(Encode(values[w]), ms);
  }

  /** When no two ids of `values` collide on their physical key, `mSet`
      stores exactly the encoding of each id's own value. */
  lemma MSetExact(before: Db, after: Db, prefix: string, values: map<string, Value>, ms: int, id: string)
    requires MSetDone(before, after, prefix, values, ms)
    requires CaseDistinct(values)
    requires id in values
    ensures Key(prefix, id) in after && after[Key(prefix, id)] == Entry(Encode(values[id]), ms)
    ensures Cached(after, prefix, id) == Normalize(values[id])
  {
    var k := Key(prefix, id);
    assert Targets(prefix, values, k);
    var w :| w in values && Key(prefix, w) == k && after[k] == Entry(Encode(values[w]), ms);
    KeyCaseInsensitive(prefix, w, id);
  }

  /** An id that no id of `values` collides with reads the same after `mSet`. */
  lemma MSetFrame(before: Db, after: Db, prefix: string, values: map<string, Value>, ms: int, id: string)
    requires MSetDone(before, after, prefix, values, ms)
    requires forall w :: w in values ==> ToLower(w) != ToLower(id)
    ensures Cached(after, prefix, id) == Cached(before, prefix, id)
  {
    var k := Key(prefix, id);
    if Targets(prefix, values, k) {
      var w :| w in values && Key(prefix, w) == k;
      KeyCaseInsensitive(prefix, w, id);
      assert false;
    }
  }

  /** A hit stays a hit across `mSet`: a key it rewrites holds an encoding. */
  lemma MSetKeepsHits(before: Db, after: Db, prefix: string, values: map<string, Value>, ms: int, id: string)
    requires MSetDone(before, after, prefix, values, ms)
    requires Cached(before, prefix, id) != Undefined
    ensures Cached(after, prefix, id) != Undefined
  {
    var k := Key(prefix, id);
    if Targets(prefix, values, k) {
      var w :| w in values && Key(prefix, w) == k && after[k] == Entry(Encode(values[w]), ms);
    }
  }

  /** After a write-back that covers every requested id that missed, every
      requested id is a hit. */
  lemma WriteBackHits(before: Db, after: Db, prefix: string, values: map<string, Value>, ms: int, ids: seq<string>)
    requires MSetDone(before, after, prefix, values, ms)
    requires forall id :: id in ids ==> id in values || Cached(before, prefix, id) != Undefined
    ensures forall id :: id in ids ==> Cached(after, prefix, id) != Undefined
  {
    forall id | id in ids
      ensures Cached(after, prefix, id) != Undefined
    {
      if id in values {
        MSetHit(before, after, prefix, values, ms, id);
      } else {
        MSetKeepsHits(before, after, prefix, values, ms, id);
      }
    }
  }

  /** The physical keys of `ids`, as `del` receives them. */
  function KeySet(prefix: string, ids: seq<string>): set<string>
  {
    set id | id in ids :: Key(prefix, id)
  }
}
