/** The abstract view of a compilation cache: the sequence of Insert and
    Clear calls made on it. Replay gives the table those calls build;
    LiveKeys and LastInsert say declaratively which keys are present and
    which insert supplies each key's value, and the lemmas connect the two. */
module CacheHistory {
  import opened Pir

  datatype CacheOp = InsertOp(key: FusionInfo, value: CompilationResult) | ClearOp

  /** The table left by performing `h`, in order, on an empty cache. */
  ghost function Replay(h: seq<CacheOp>): map<FusionInfo, CompilationResult>
  {
    if h == [] then map[]
    else match h[|h| - 1]
      case ClearOp => map[]
      case InsertOp(k, v) => Replay(h[..|h| - 1])[k := v]
  }

  /** No Clear comes after position i of h. */
  ghost predicate NoClearAfter(h: seq<CacheOp>, i: nat)
  {
    forall j :: i < j < |h| ==> !h[j].ClearOp?
  }

  /** Position i of h inserts key k. */
  ghost predicate InsertedAt(h: seq<CacheOp>, k: FusionInfo, i: int)
  {
    0 <= i < |h| && h[i].InsertOp? && h[i].key == k
  }

  /** Position i of h is the last insert of k, and the cache has not been
      cleared since. */
  ghost predicate LastInsert(h: seq<CacheOp>, k: FusionInfo, i: int)
  {
    InsertedAt(h, k, i) && NoClearAfter(h, i) &&
    forall j :: i < j < |h| ==> !InsertedAt(h, k, j)
  }

  /** The keys inserted since the last Clear, each counted once. */
  ghost function LiveKeys(h: seq<CacheOp>): set<FusionInfo>
  {
    set i | 0 <= i < |h| && h[i].InsertOp? && NoClearAfter(h, i) :: h[i].key
  }

  /** The number of Insert calls since the last Clear. */
  ghost function InsertsSinceClear(h: seq<CacheOp>): nat
  {
    if h == [] then 0
    else match h[|h| - 1]
      case ClearOp => 0
      case InsertOp(_, _) => InsertsSinceClear(h[..|h| - 1]) + 1
  }

  /** Clear leaves no key live. */
  lemma LiveKeysAfterClear(p: seq<CacheOp>)
    ensures LiveKeys(p + [ClearOp]) == {}
  {
    var h := p + [ClearOp];
    forall i | 0 <= i < |h| && h[i].InsertOp?
      ensures !NoClearAfter(h, i)
    {
      assert h[|p|].ClearOp?;
    }
  }

  /** Insert adds its key to the live keys and leaves every other key as it
      was; inserting a key that is already live changes nothing. */
  lemma LiveKeysAfterInsert(p: seq<CacheOp>, k: FusionInfo, v: CompilationResult)
    ensures LiveKeys(p + [InsertOp(k, v)]) == LiveKeys(p) + {k}
  {
    var h := p + [InsertOp(k, v)];
    assert forall j :: 0 <= j < |p| ==> h[j] == p[j];
    forall i | 0 <= i < |p|
      ensures NoClearAfter(h, i) <==> NoClearAfter(p, i)
    {
      assert !h[|p|].ClearOp?;
    }
    forall k' | k' in LiveKeys(h)
      ensures k' in LiveKeys(p) + {k}
    {
      var i :| 0 <= i < |h| && h[i].InsertOp? && NoClearAfter(h, i) && h[i].key == k';
      if i < |p| {
        assert p[i].key == k';
      }
    }
    forall k' | k' in LiveKeys(p) + {k}
      ensures k' in LiveKeys(h)
    {
      if k' == k {
        assert h[|p|].key == k';
      } else {
        var i :| 0 <= i < |p| && p[i].InsertOp? && NoClearAfter(p, i) && p[i].key == k';
        assert h[i].key == k';
      }
    }
  }

  /** The keys of the replayed table are exactly the keys inserted since the
      last Clear. */
  lemma {:induction false} ReplayKeys(h: seq<CacheOp>)
    ensures Replay(h).Keys == LiveKeys(h)
  {
    if h != [] {
      var p, op := h[..|h| - 1], h[|h| - 1];
      assert h == p + [op];
      ReplayKeys(p);
      match op
      case ClearOp => LiveKeysAfterClear(p);
      case InsertOp(k, v) => LiveKeysAfterInsert(p, k, v);
    }
  }

  /** Every key of the replayed table holds the value of its last insert
      since the last Clear: the last insert wins. */
  lemma {:induction false} ReplayLast(h: seq<CacheOp>, k: FusionInfo)
    requires k in Replay(h)
    ensures exists i :: LastInsert(h, k, i) && h[i].value == Replay(h)[k]
  {
    var p, op := h[..|h| - 1], h[|h| - 1];
    assert h == p + [op];
    if op.InsertOp? {
      if op.key == k {
        assert LastInsert(h, k, |p|);
      } else {
        ReplayLast(p, k);
        var i :| LastInsert(p, k, i) && p[i].value == Replay(p)[k];
        assert forall j :: 0 <= j < |p| ==> h[j] == p[j];
        forall j | i < j < |h|
          ensures !h[j].ClearOp? && !InsertedAt(h, k, j)
        {
          if j < |p| {
            assert !InsertedAt(p, k, j);
          }
        }
        assert LastInsert(h, k, i);
      }
    }
  }

  /** A key has at most one last insert. */
  lemma LastInsertUnique(h: seq<CacheOp>, k: FusionInfo, i: int, j: int)
    requires LastInsert(h, k, i) && LastInsert(h, k, j)
    ensures i == j
  {
  }

  /** The table never holds more keys than there were inserts since the last
      Clear: repeated inserts of one key count once. */
  lemma {:induction false} LiveKeysBound(h: seq<CacheOp>)
    ensures |LiveKeys(h)| <= InsertsSinceClear(h)
  {
    if h != [] {
      var p, op := h[..|h| - 1], h[|h| - 1];
      assert h == p + [op];
      match op
      case ClearOp => LiveKeysAfterClear(p);
      case InsertOp(k, v) =>
        LiveKeysBound(p);
        LiveKeysAfterInsert(p, k, v);
    }
  }
}
