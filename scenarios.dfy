/** Callers of `RedisCache` that use only its contracts: what a sequence of
    calls promises. */
module Scenarios {
  import opened Codec
  import opened Keys
  import opened Store
  import opened Batch
  import opened Cache

  /** Negative caching: once `mWarp` has run with `ms > 0`, a second,
      non-forced `mWarp` on the same ids finds every id cached and does not
      call the worker, whatever the worker answered the first time. */
  method MWarpTwice(c: RedisCache, ids: seq<string>, worker: seq<string> -> map<string, Value>,
                    ms: int, force: bool)
    returns (secondCalled: bool)
    requires ms > 0
    modifies c
    ensures !secondCalled
  {
    var _, _ := c.MWarp(ids, worker, ms, force);
    NoMissesWhenAllHit(c.store, c.prefix, ids);
    var _, called := c.MWarp(ids, worker, ms, false);
    secondCalled := called;
  }

  /** The same for `warp`: after a call with `ms > 0`, a non-forced call is a
      hit, even where the worker answered `undefined`. */
  method WarpTwice(c: RedisCache, id: string, worker: () -> Value, ms: int, force: bool)
    returns (secondCalled: bool, second: Value)
    requires ms > 0
    modifies c
    ensures !secondCalled && second != Undefined
  {
    var _, _ := c.Warp(id, worker, ms, force);
    second, secondCalled := c.Warp(id, worker, ms, false);
  }

  /** A forced `mWarp` calls the worker with every requested id, in order. */
  method ForcedMWarp(c: RedisCache, ids: seq<string>, worker: seq<string> -> map<string, Value>, ms: int)
    returns (result: map<string, Value>, called: bool)
    requires ids != []
    modifies c
    ensures called && result == FillNulls(worker(ids), ids)
  {
    ForcedMissesAreAllIds(ids);
    result, called := c.MWarp(ids, worker, ms, true);
  }

  /** The negative-caching pass over a worker answer that covers only `a`. */
  lemma OnlyOneResolved()
    ensures FillNulls(map["a" := Num(1)], ["a", "b", "c"]) == map["a" := Num(1), "b" := Null, "c" := Null]
  {
    assert ["a", "b", "c"][..2] == ["a", "b"];
    assert ["a", "b"][..1] == ["a"];
    assert ["a"][..0] == [];
  }

  /** The result `mWarp` assembles for ids `a`, `b`, `c`, none of them
      cached, and a worker that resolves only `a`. */
  lemma {:induction false} OnlyOneResolvedMerged(db: Db, prefix: string)
    requires forall id :: id in ["a", "b", "c"] ==> Cached(db, prefix, id) == Undefined
    ensures var ids := ["a", "b", "c"];
            var base := CachedMap(db, prefix, ids);
            && Misses(ids, base) == ids
            && Merge(base, map["a" := Num(1)], ids) == map["a" := Num(1), "b" := Null, "c" := Null]
  {
    var ids := ["a", "b", "c"];
    var base := CachedMap(db, prefix, ids);
    MissesAll(ids, base);
    MergeOverridesBase(base, map["a" := Num(1)], ids);
    OnlyOneResolved();
  }

  /** When none of the ids is cached, `mWarp` hands all of them, in order,
      to the worker and returns its answer after the negative-caching pass. */
  method MWarpAllMiss(c: RedisCache, ids: seq<string>, worker: seq<string> -> map<string, Value>, ms: int)
    returns (result: map<string, Value>, called: bool)
    requires ids != []
    requires forall id :: id in ids ==> Cached(c.store, c.prefix, id) == Undefined
    modifies c
    ensures called && result == FillNulls(worker(ids), ids)
  {
    MissesAll(ids, CachedMap(c.store, c.prefix, ids));
    result, called := c.MWarp(ids, worker, ms, false);
  }

  /** `clear("x")` under prefix `p` removes the entry of `x-1` and keeps
      that of `y-1`. */
  method ClearIsScoped() returns (keptY: bool, keptX: bool)
    ensures keptY && !keptX
  {
    var cache := new RedisCache("p", 1000, map[]);
    var _ := cache.Set("x-1", Num(1));
    var _ := cache.Set("y-1", Num(1));
    ClearSelectsId("p", "x", "x-1");
    ClearSelectsId("p", "x", "y-1");
    var _ := cache.Clear("x");
    keptY := Key("p", "y-1") in cache.store;
    keptX := Key("p", "x-1") in cache.store;
  }

  /** `set(id, v, 0)`, `mSet({a: 1}, -5)` and `mSet({}, 1000)` are refused
      with `InvalidParam` and write nothing. */
  method RejectsBadParameters(c: RedisCache) returns (r1: Status, r2: Status, r3: Status)
    modifies c
    ensures r1 == InvalidParam(TtlNotPositive) && r2 == InvalidParam(TtlNotPositive)
    ensures r3 == InvalidParam(NoValues)
    ensures c.store == old(c.store)
  {
    r1 := c.Set("a", Num(1), 0);
    r2 := c.MSet(map["a" := Num(1)], -5);
    r3 := c.MSet(map[], 1000);
  }
}
