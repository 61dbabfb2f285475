/** The `RedisCache` class: the store operations and the cache-aside
    orchestrators `warp` and `mWarp`, over an in-memory model of the store. */
module Cache {
  import opened Codec
  import opened Keys
  import opened Store
  import opened Batch

  /** Why a write was refused with `RedisCache.InvalidParam`. */
  datatype Reason = TtlNotPositive | NoValues

  datatype Status = Ok | InvalidParam(reason: Reason)

  /** A `SET key text PX ttl` queued on a pipeline. */
  datatype Command = SetCommand(key: string, data: Encoded, ttl: int)

  /** The last command of `pipeline` that writes `k`, if any. */
  function LastWrite(pipeline: seq<Command>, k: string): (r: Option<Command>)
    ensures r.None? <==> forall c :: c in pipeline ==> c.key != k
    ensures r.Some? ==> exists i :: 0 <= i < |pipeline| && pipeline[i] == r.value && r.value.key == k &&
                          forall j :: i < j < |pipeline| ==> pipeline[j].key != k
  {
    if pipeline == [] then None
    else if pipeline[|pipeline| - 1].key == k then Some(pipeline[|pipeline| - 1])
    else LastWrite(pipeline[..|pipeline| - 1], k)
  }

  /** The store after the pipeline's `SET`s run, in order, over `db`. */
  function Apply(db: Db, pipeline: seq<Command>): (after: Db)
    ensures forall k :: k in after <==> k in db || LastWrite(pipeline, k).Some?
    ensures forall k :: k in after ==>
              after[k] == match LastWrite(pipeline, k)
                          case Some(c) => Entry(c.data, c.ttl)
                          case None => db[k]
  {
    if pipeline == [] then db
    else
      var c := pipeline[|pipeline| - 1];
      Apply(db, pipeline[..|pipeline| - 1])[c.key := Entry(c.data, c.ttl)]
  }

  /** Of two `SET`s of one key, the later one decides what the key holds,
      whatever came before and whatever other keys are written after. */
  lemma ApplyLaterWins(db: Db, earlier: seq<Command>, c: Command, later: seq<Command>)
    requires forall c' :: c' in later ==> c'.key != c.key
    ensures c.key in Apply(db, earlier + [c] + later)
    ensures Apply(db, earlier + [c] + later)[c.key] == Entry(c.data, c.ttl)
  {
    var pipeline := earlier + [c] + later;
    assert pipeline[|earlier|] == c;
    forall j | |earlier| < j < |pipeline|
      ensures pipeline[j].key != c.key
    {
      assert pipeline[j] == later[j - |earlier| - 1];
    }
    var w := LastWrite(pipeline, c.key);
    var i :| 0 <= i < |pipeline| && pipeline[i] == w.value && w.value.key == c.key &&
             forall j :: i < j < |pipeline| ==> pipeline[j].key != c.key;
    assert i == |earlier|;
  }

  /** `pipeline` holds a `SET` for each id of `done`, and no other command. */
  ghost predicate Pipelined(pipeline: seq<Command>, prefix: string, values: map<string, Value>, ms: int, done: set<string>)
    requires done <= values.Keys
  {
    && (forall c :: c in pipeline ==>
          exists id :: id in done && c == SetCommand(Key(prefix, id), Encode(values[id]), ms))
    && (forall id :: id in done ==> SetCommand(Key(prefix, id), Encode(values[id]), ms) in pipeline)
  }

  /** Queuing the `SET` of one more entry keeps the pipeline in step. */
  lemma PipelineStep(pipeline: seq<Command>, prefix: string, values: map<string, Value>, ms: int,
                     done: set<string>, id: string)
    requires done <= values.Keys && id in values
    requires Pipelined(pipeline, prefix, values, ms, done)
    ensures Pipelined(pipeline + [SetCommand(Key(prefix, id), Encode(values[id]), ms)], prefix, values, ms, done + {id})
  {
  }

  /** The pipeline is empty exactly when `values` is. */
  lemma PipelineEmpty(pipeline: seq<Command>, prefix: string, values: map<string, Value>, ms: int)
    requires Pipelined(pipeline, prefix, values, ms, values.Keys)
    ensures |pipeline| == 0 <==> |values| == 0
  {
    if |values| > 0 {
      var id :| id in values;
      assert SetCommand(Key(prefix, id), Encode(values[id]), ms) in pipeline;
    }
    if |pipeline| > 0 {
      assert pipeline[0] in pipeline;
      var id :| id in values.Keys && pipeline[0] == SetCommand(Key(prefix, id), Encode(values[id]), ms);
    }
  }

  /** A key of the pipeline `mSet` builds is written, last, by the `SET` of
      an entry of `values` exactly when that key belongs to one of them. */
  lemma PipelineWrites(pipeline: seq<Command>, prefix: string, values: map<string, Value>, ms: int, k: string)
    requires Pipelined(pipeline, prefix, values, ms, values.Keys)
    ensures LastWrite(pipeline, k).Some? <==> Targets(prefix, values, k)
    ensures LastWrite(pipeline, k).Some? ==>
              exists id :: id in values && Key(prefix, id) == k &&
                LastWrite(pipeline, k).value == SetCommand(k, Encode(values[id]), ms)
  {
    if Targets(prefix, values, k) {
      var id :| id in values && Key(prefix, id) == k;
      assert SetCommand(Key(prefix, id), Encode(values[id]), ms) in pipeline;
    }
    if LastWrite(pipeline, k).Some? {
      var c := LastWrite(pipeline, k).value;
      var i :| 0 <= i < |pipeline| && pipeline[i] == c;
      assert c in pipeline;
      var id :| id in values && c == SetCommand(Key(prefix, id), Encode(values[id]), ms);
    }
  }

  /** The pipeline `mSet` builds, one `SET` per entry of `values`, leaves the
      store as `MSetDone` describes. */
  lemma PipelineDone(before: Db, pipeline: seq<Command>, prefix: string, values: map<string, Value>, ms: int)
    requires Pipelined(pipeline, prefix, values, ms, values.Keys)
    ensures MSetDone(before, Apply(before, pipeline), prefix, values, ms)
  {
    forall k {
      PipelineWrites(pipeline, prefix, values, ms, k);
    }
  }

  /** The `dataIds` loop of `mWarp`: pushes, in order, each id that misses
      in `base`. */
  method CollectMisses(ids: seq<string>, base: map<string, Value>) returns (dataIds: seq<string>)
    ensures dataIds == Misses(ids, base)
  {
    dataIds := [];
    for i := 0 to |ids|
      invariant dataIds == Misses(ids[..i], base)
    {
      assert ids[..i + 1][..i] == ids[..i];
      if IsMiss(base, ids[i]) {
        dataIds := dataIds + [ids[i]];
      }
    }
    assert ids[..|ids|] == ids;
  }

  /** The negative-caching loop of `mWarp`: sets `null` for each requested
      id the worker's answer leaves out or leaves `undefined`. */
  method FillMisses(produced: map<string, Value>, dataIds: seq<string>) returns (dataResult: map<string, Value>)
    ensures dataResult == FillNulls(produced, dataIds)
  {
    dataResult := produced;
    for i := 0 to |dataIds|
      invariant dataResult == FillNulls(produced, dataIds[..i])
    {
      assert dataIds[..i + 1][..i] == dataIds[..i];
      if IsMiss(dataResult, dataIds[i]) {
        dataResult := dataResult[dataIds[i] := Null];
      }
    }
    assert dataIds[..|dataIds|] == dataIds;
  }

  class RedisCache {
    /** `config.prefix`, the namespace of every physical key. */
    const prefix: string
    /** `config.ttl`, the default time-to-live in milliseconds. */
    const ttl: int
    /** The contents of the shared store reached through `io`. */
    var store: Db

    constructor (prefix: string, ttl: int, store: Db)
      ensures this.prefix == prefix && this.ttl == ttl && this.store == store
    {
      this.prefix := prefix;
      this.ttl := ttl;
      this.store := store;
    }

    /** `set`: refuses a non-positive `ms`; otherwise overwrites the entry
        at `key(id)` with the encoded value and nothing else. */
    method Set(id: string, value: Value, ms: int := ttl) returns (r: Status)
      modifies this
      ensures ms <= 0 ==> r == InvalidParam(TtlNotPositive) && store == old(store)
      ensures ms > 0 ==> r == Ok && store == old(store)[Key(prefix, id) := Entry(Encode(value), ms)]
    {
      if ms <= 0 {
        return InvalidParam(TtlNotPositive);
      }
      store := store[Key(prefix, id) := Entry(Encode(value), ms)];
      r := Ok;
    }

    /** `mSet`: refuses a non-positive `ms`, and then an empty `values`,
        before anything is written; otherwise queues one `SET` per entry and
        runs the pipeline. */
    method MSet(values: map<string, Value>, ms: int := ttl) returns (r: Status)
      modifies this
      ensures ms <= 0 ==> r == InvalidParam(TtlNotPositive)
      ensures ms > 0 && |values| == 0 ==> r == InvalidParam(NoValues)
      ensures ms > 0 && |values| > 0 ==> r == Ok
      ensures r == Ok ==> MSetDone(old(store), store, prefix, values, ms)
      ensures r != Ok ==> store == old(store)
    {
      if ms <= 0 {
        return InvalidParam(TtlNotPositive);
      }
      var pipeline := Queue(values, ms);
      PipelineEmpty(pipeline, prefix, values, ms);
      if |pipeline| == 0 {
        return InvalidParam(NoValues);
      }
      ghost var before := store;
      Exec(pipeline);
      PipelineDone(before, pipeline, prefix, values, ms);
      r := Ok;
    }

    /** The `_.forEach` of `mSet`: one `SET key(id) encode(value) PX ms` per
        entry of `values`, in some order. */
    method Queue(values: map<string, Value>, ms: int) returns (pipeline: seq<Command>)
      ensures |pipeline| == |values|
      ensures Pipelined(pipeline, prefix, values, ms, values.Keys)
    {
      pipeline := [];
      var remaining := values.Keys;
      while remaining != {}
        invariant remaining <= values.Keys
        invariant |pipeline| + |remaining| == |values.Keys|
        invariant Pipelined(pipeline, prefix, values, ms, values.Keys - remaining)
        decreases |remaining|
      {
        var id :| id in remaining;
        assert values.Keys - (remaining - {id}) == (values.Keys - remaining) + {id};
        PipelineStep(pipeline, prefix, values, ms, values.Keys - remaining, id);
        pipeline := pipeline + [SetCommand(Key(prefix, id), Encode(values[id]), ms)];
        remaining := remaining - {id};
      }
      assert values.Keys - remaining == values.Keys;
    }

    /** The pipeline's `exec`: the queued `SET`s, in order, so a key written
        twice holds what its last command wrote. */
    method Exec(pipeline: seq<Command>)
      modifies this
      ensures store == Apply(old(store), pipeline)
    {
      for j := 0 to |pipeline|
        invariant store == Apply(old(store), pipeline[..j])
      {
        assert pipeline[..j + 1][..j] == pipeline[..j];
        store := store[pipeline[j].key := Entry(pipeline[j].data, pipeline[j].ttl)];
      }
      assert pipeline[..|pipeline|] == pipeline;
    }

    /** `get`: the decoded entry at `key(id)`; a miss is `Undefined`. */
    method Get(id: string) returns (v: Value)
      ensures v == Cached(store, prefix, id)
    {
      v := Decode(Raw(store, Key(prefix, id)));
    }

    /** `mGet`: one `MGET`, then one decoded answer per requested id. */
    method MGet(ids: seq<string>) returns (result: map<string, Value>)
      ensures result.Keys == set id | id in ids
      ensures forall id :: id in result ==> result[id] == Cached(store, prefix, id)
    {
      var ret := FetchMany(store, PhysicalKeys(prefix, ids));
      result := map[];
      for i := 0 to |ids|
        invariant result.Keys == set id | id in ids[..i]
        invariant forall id :: id in result ==> result[id] == Cached(store, prefix, id)
      {
        assert ids[..i + 1] == ids[..i] + [ids[i]];
        result := result[ids[i] := Decode(ret[i])];
      }
      assert ids[..|ids|] == ids;
    }

    /** `warp`: a non-forced hit is returned without calling the worker;
        otherwise the worker's value is returned and, when `ms > 0`, stored.
        Either way a later non-forced call hits once `ms > 0`. */
    method Warp(id: string, worker: () -> Value, ms: int := ttl, force: bool := false)
      returns (result: Value, called: bool)
      modifies this
      ensures var hit := !force && Cached(old(store), prefix, id) != Undefined;
              && called == !hit
              && (hit ==> result == Cached(old(store), prefix, id) && store == old(store))
              && (!hit ==> result == worker())
              && (!hit && ms > 0 ==> store == old(store)[Key(prefix, id) := Entry(Encode(worker()), ms)])
              && (!hit && ms <= 0 ==> store == old(store))
      ensures ms > 0 ==> Cached(store, prefix, id) != Undefined
    {
      result := Undefined;
      if !force {
        result := Get(id);
      }
      called := false;
      if result == Undefined {
        result := worker();
        called := true;
        if ms > 0 {
          var _ := Set(id, result, ms);
        }
      }
    }

    /** `mWarp`: reads the requested ids (unless forced), hands the misses,
        in order, to the worker, turns every miss it did not resolve into
        `null`, writes that answer back when `ms > 0` and merges it into the
        result. */
    method MWarp(ids: seq<string>, worker: seq<string> -> map<string, Value>, ms: int := ttl, force: bool := false)
      returns (result: map<string, Value>, called: bool)
      modifies this
      ensures var base := if force then map[] else CachedMap(old(store), prefix, ids);
              var misses := Misses(ids, base);
              && called == (misses != [])
              && (!called ==> result == base && store == old(store))
              && (called ==> result == Merge(base, worker(misses), misses))
              && (called && ms > 0 ==> MSetDone(old(store), store, prefix, FillNulls(worker(misses), misses), ms))
              && (called && ms <= 0 ==> store == old(store))
      ensures ms > 0 ==> forall id :: id in ids ==> Cached(store, prefix, id) != Undefined
    {
      var base := Lookup(ids, force);
      var dataIds := CollectMisses(ids, base);
      result := base;
      called := false;
      if |dataIds| > 0 {
        called := true;
        result := Refill(ids, base, dataIds, worker, ms);
      }
    }

    /** The first step of `mWarp`: `{}` when forced, else `mGet(ids)`. */
    method Lookup(ids: seq<string>, force: bool) returns (base: map<string, Value>)
      ensures base == if force then map[] else CachedMap(store, prefix, ids)
    {
      base := map[];
      if !force {
        base := MGet(ids);
        CachedMapUnique(store, prefix, ids, base);
      }
    }

    /** The worker branch of `mWarp`, taken when some id misses in `base`:
        the worker's answer is filled, written back when `ms > 0` and merged
        into `base`. */
    method Refill(ids: seq<string>, base: map<string, Value>, dataIds: seq<string>,
                  worker: seq<string> -> map<string, Value>, ms: int)
      returns (result: map<string, Value>)
      requires dataIds == Misses(ids, base) && dataIds != []
      requires forall id :: id in base ==> base[id] == Cached(store, prefix, id)
      modifies this
      ensures result == Merge(base, worker(dataIds), dataIds)
      ensures ms > 0 ==> MSetDone(old(store), store, prefix, FillNulls(worker(dataIds), dataIds), ms)
      ensures ms <= 0 ==> store == old(store)
      ensures ms > 0 ==> forall id :: id in ids ==> Cached(store, prefix, id) != Undefined
    {
      var produced := worker(dataIds);
      var dataResult := FillMisses(produced, dataIds);
      if ms > 0 {
        FillNullsNotEmpty(produced, dataIds);
        FillCoversMisses(ids, base, produced);
        WriteBack(dataResult, ms, ids, base);
      }
      result := base + dataResult;
    }

    /** The write-back of `mWarp` when `ms > 0`: `mSet` of the filled
        answer, which cannot be refused since the answer holds every miss.
        Each requested id that the answer covers or that already hit is a
        hit afterwards. */
    method WriteBack(dataResult: map<string, Value>, ms: int, ids: seq<string>, base: map<string, Value>)
      requires ms > 0 && |dataResult| > 0
      requires forall id :: id in base ==> base[id] == Cached(store, prefix, id)
      requires forall id :: id in ids ==> id in dataResult || !IsMiss(base, id)
      modifies this
      ensures MSetDone(old(store), store, prefix, dataResult, ms)
      ensures forall id :: id in ids ==> Cached(store, prefix, id) != Undefined
    {
      ghost var before := store;
      var status := MSet(dataResult, ms);
      WriteBackHits(before, store, prefix, dataResult, ms, ids);
    }

    /** `delete`: removes the physical keys of `ids` and answers how many of
        them existed. With no ids the store's answer is not modelled. */
    method Delete(ids: seq<string> := []) returns (count: nat)
      modifies this
      ensures store == old(store) - KeySet(prefix, ids)
      ensures |ids| > 0 ==> count == |old(store).Keys * KeySet(prefix, ids)|
    {
      var doomed := KeySet(prefix, ids);
      count := |store.Keys * doomed|;
      store := store - doomed;
    }

    /** `clear`: removes every key that `key(sub + '*')` selects and answers
        how many there were; keys outside the pattern are untouched. */
    method Clear(sub: string := "") returns (count: nat)
      modifies this
      ensures forall k :: k in store <==> k in old(store) && !MatchesGlob(Key(prefix, sub + "*"), k)
      ensures forall k :: k in store ==> store[k] == old(store)[k]
      ensures count == |old(store).Keys| - |store.Keys|
    {
      var pattern := Key(prefix, sub + "*");
      var keys := set k | k in store.Keys && MatchesGlob(pattern, k);
      count := 0;
      if |keys| > 0 {
        assert store.Keys == (store.Keys - keys) + keys;
        count := |keys|;
        store := store - keys;
      }
    }
  }
}
