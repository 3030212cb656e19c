/** CompilationCache: one worker's table from fusion key to shared
    compilation result. The real state is the map `cache`; the ghost
    `history` records every Insert and Clear, and Valid() says that the map
    is what replaying the history builds. */
module Framework {
  import opened Wrappers
  import opened Pir
  import opened CacheHistory

  class CompilationCache {
    var cache: map<FusionInfo, CompilationResult>
    ghost var history: seq<CacheOp>

    ghost predicate Valid()
      reads this
    {
      cache == Replay(history)
    }

    /** A new cache is empty and has seen no call. */
    constructor ()
      ensures Valid() && history == [] && cache == map[]
    {
      cache := map[];
      history := [];
    }

    /** Present exactly when inserted since the last Clear. */
    function Has(key: FusionInfo): (b: bool)
      reads this
      requires Valid()
      ensures b <==> key in LiveKeys(history)
    {
      ReplayKeys(history);
      key in cache
    }

    /** The result stored by the last Insert of `key`; a missing key is the
        caller's error. */
    function Get(key: FusionInfo): (r: CompilationResult)
      reads this
      requires Valid() && Has(key)
      ensures r in cache.Values
      ensures exists i :: LastInsert(history, key, i) && history[i].value == r
      ensures forall i :: LastInsert(history, key, i) ==> history[i].value == r
    {
      ReplayLast(history, key);
      var r := cache[key];
      assert forall i :: LastInsert(history, key, i) ==> history[i].value == r by {
        forall i | LastInsert(history, key, i) ensures history[i].value == r {
          var w :| LastInsert(history, key, w) && history[w].value == r;
          LastInsertUnique(history, key, i, w);
        }
      }
      r
    }

    /** Inserts or replaces the entry for `key`; every other key keeps its
        presence and its value, and results held by reference are not
        touched. */
    method Insert(key: FusionInfo, value: CompilationResult)
      requires Valid()
      modifies this
      ensures Valid()
      ensures history == old(history) + [InsertOp(key, value)]
      ensures cache == old(cache)[key := value]
      ensures Has(key) && Get(key) == value
      ensures forall k :: k != key ==> (Has(k) <==> k in old(cache))
      ensures Size() == old(Size()) + (if key in old(cache) then 0 else 1)
      ensures forall v :: v in old(cache).Values ==> unchanged(v)
    {
      cache := cache[key := value];
      history := history + [InsertOp(key, value)];
      assert history[..|history| - 1] == old(history);
    }

    /** Removes every entry; results still held by reference are not
        touched. */
    method Clear()
      requires Valid()
      modifies this
      ensures Valid()
      ensures history == old(history) + [ClearOp]
      ensures cache == map[]
      ensures Size() == 0
      ensures forall k :: !Has(k)
      ensures forall v :: v in old(cache).Values ==> unchanged(v)
    {
      cache := map[];
      history := history + [ClearOp];
      assert history[..|history| - 1] == old(history);
    }

    /** The number of distinct keys inserted since the last Clear, which is
        at most the number of inserts since then. */
    function Size(): (n: nat)
      reads this
      requires Valid()
      ensures n == |LiveKeys(history)|
      ensures n <= InsertsSinceClear(history)
    {
      ReplayKeys(history);
      LiveKeysBound(history);
      assert |cache| == |cache.Keys|;
      |cache|
    }

    /** Get(key)'s own kernel info: it needs the key present and then fails
        exactly when that result has no backend resource yet. */
    function GetKernelInfo(key: FusionInfo, gen: KernelInfoGenerator): (r: Result<KernelInfo, Error>)
      reads this, cache.Values
      requires Valid() && Has(key)
      ensures r == Get(key).GetKernelInfo(gen)
      ensures r.Err? <==> Get(key).GetBackendResource() == None
      ensures r.Ok? ==> r.value == gen(Get(key).GetBackendResource().value, Get(key).haveCx86Kernel)
    {
      Get(key).GetKernelInfo(gen)
    }
  }
}
