/**
  What one diff step must report to a viewer: the specification against which
  the server's loops are proved, and the properties of any delta meeting it.
 */
module Diff {
  import opened Topics

  /** Keys of `current` that are new, or whose record is not field-wise equal to the last one seen. */
  function ChangedKeys(lastSnapshot: Cache, current: Cache): (keys: set<string>)
    ensures keys <= current.Keys
    ensures forall k :: k in current && k in lastSnapshot && lastSnapshot[k] == current[k] ==> k !in keys
  {
    set k | k in current && (k !in lastSnapshot || lastSnapshot[k] != current[k])
  }

  /** Keys seen last time that are absent now. */
  function RemovedKeys(lastSnapshot: Cache, current: Cache): (keys: set<string>)
    ensures keys !! current.Keys
    ensures keys <= lastSnapshot.Keys
  {
    lastSnapshot.Keys - current.Keys
  }

  /** `r` is the current record of some new or changed key. */
  predicate IsChangedRecord(lastSnapshot: Cache, current: Cache, r: TopicData) {
    exists k :: k in ChangedKeys(lastSnapshot, current) && current[k] == r
  }

  /**
    `delta` is a correct report of the change from `lastSnapshot` to `current`,
    in any order: every changed key once with its current record, and every
    vanished key once.
   */
  predicate IsDelta(lastSnapshot: Cache, current: Cache, delta: DeltaUpdate) {
    && NoDuplicates(KeysOf(delta.updated))
    && Elements(KeysOf(delta.updated)) == ChangedKeys(lastSnapshot, current)
    && (forall r :: r in delta.updated ==> r.keyExpr in current && current[r.keyExpr] == r)
    && NoDuplicates(delta.removed)
    && Elements(delta.removed) == RemovedKeys(lastSnapshot, current)
  }

  /** One step of walking the keys of `current`: visiting `key` keeps the visited list exact. */
  lemma VisitStep(lastSnapshot: Cache, current: Cache, visited: seq<string>, pending: set<string>, key: string)
    requires pending <= current.Keys && key in pending
    requires NoDuplicates(visited)
    requires Elements(visited) == ChangedKeys(lastSnapshot, current) - pending
    ensures (key !in lastSnapshot || lastSnapshot[key] != current[key]) ==>
      && NoDuplicates(visited + [key])
      && Elements(visited + [key]) == ChangedKeys(lastSnapshot, current) - (pending - {key})
    ensures !(key !in lastSnapshot || lastSnapshot[key] != current[key]) ==>
      Elements(visited) == ChangedKeys(lastSnapshot, current) - (pending - {key})
  {
    var changed := ChangedKeys(lastSnapshot, current);
    if key !in lastSnapshot || lastSnapshot[key] != current[key] {
      assert key in changed;
      assert key !in visited by { assert key !in Elements(visited); }
      NoDuplicatesAppend(visited, key);
      ElementsAppend(visited, key);
      assert changed - (pending - {key}) == (changed - pending) + {key};
    } else {
      assert key !in changed;
      assert changed - (pending - {key}) == changed - pending;
    }
  }

  /**
    A repetition-free list of exactly the changed keys, paired position by
    position with their current records, reports every changed record once.
   */
  lemma VisitedChangedKeys(lastSnapshot: Cache, current: Cache, visited: seq<string>, updated: seq<TopicData>)
    requires |visited| == |updated| && NoDuplicates(visited)
    requires Elements(visited) == ChangedKeys(lastSnapshot, current)
    requires forall i :: 0 <= i < |visited| ==> visited[i] in current && updated[i] == current[visited[i]]
    ensures |updated| == |ChangedKeys(lastSnapshot, current)|
    ensures forall k :: k in ChangedKeys(lastSnapshot, current) ==> current[k] in updated
    ensures forall r :: r in updated ==> IsChangedRecord(lastSnapshot, current, r)
    ensures WellKeyed(current) ==>
      && NoDuplicates(KeysOf(updated))
      && Elements(KeysOf(updated)) == ChangedKeys(lastSnapshot, current)
      && forall r :: r in updated ==> r.keyExpr in current && current[r.keyExpr] == r
  {
    NoDuplicatesCardinality(visited);
    forall k | k in ChangedKeys(lastSnapshot, current) ensures current[k] in updated {
      assert k in Elements(visited);
      var i :| 0 <= i < |visited| && visited[i] == k;
      assert updated[i] == current[k];
    }
    forall r | r in updated ensures IsChangedRecord(lastSnapshot, current, r) {
      var i :| 0 <= i < |updated| && updated[i] == r;
      assert visited[i] in Elements(visited);
      assert current[visited[i]] == r;
    }
    if WellKeyed(current) {
      assert KeysOf(updated) == visited;
    }
  }

  /** Coverage: a new or changed topic contributes its current record to `updated`. */
  lemma ChangedRecordIsReported(lastSnapshot: Cache, current: Cache, delta: DeltaUpdate, k: string)
    requires IsDelta(lastSnapshot, current, delta)
    requires k in current && (k !in lastSnapshot || lastSnapshot[k] != current[k])
    ensures current[k] in delta.updated
  {
    assert k in Elements(KeysOf(delta.updated));
    var i :| 0 <= i < |delta.updated| && KeysOf(delta.updated)[i] == k;
    assert delta.updated[i] in delta.updated;
  }

  /** A record whose only difference is a newer (or older) timestamp is reported as updated. */
  lemma FreshnessIsChange(lastSnapshot: Cache, current: Cache, delta: DeltaUpdate, k: string)
    requires IsDelta(lastSnapshot, current, delta)
    requires k in lastSnapshot && k in current
    requires current[k] == lastSnapshot[k].(receivedTimestamp := current[k].receivedTimestamp)
    requires current[k].receivedTimestamp != lastSnapshot[k].receivedTimestamp
    ensures current[k] in delta.updated
  {
    ChangedRecordIsReported(lastSnapshot, current, delta, k);
  }

  /** No false update or removal: an unchanged topic appears in neither list. */
  lemma UnchangedIsNotReported(lastSnapshot: Cache, current: Cache, delta: DeltaUpdate, k: string)
    requires IsDelta(lastSnapshot, current, delta)
    requires k in lastSnapshot && k in current && lastSnapshot[k] == current[k]
    ensures forall r :: r in delta.updated ==> r.keyExpr != k
    ensures k !in delta.removed
  {
    forall r | r in delta.updated ensures r.keyExpr != k {
      var i :| 0 <= i < |delta.updated| && delta.updated[i] == r;
      assert KeysOf(delta.updated)[i] in Elements(KeysOf(delta.updated));
    }
    assert k !in Elements(delta.removed);
  }

  /** Every vanished key, and only those, is in `removed`. */
  lemma RemovedExactly(lastSnapshot: Cache, current: Cache, delta: DeltaUpdate, k: string)
    requires IsDelta(lastSnapshot, current, delta)
    ensures k in delta.removed <==> k in lastSnapshot && k !in current
  {
    assert k in delta.removed <==> k in Elements(delta.removed);
  }

  /** No key is both updated and removed. */
  lemma UpdatedRemovedDisjoint(lastSnapshot: Cache, current: Cache, delta: DeltaUpdate)
    requires IsDelta(lastSnapshot, current, delta)
    ensures forall r, k :: r in delta.updated && k in delta.removed ==> r.keyExpr != k
  {
    forall r, k | r in delta.updated && k in delta.removed ensures r.keyExpr != k {
      assert k in Elements(delta.removed);
    }
  }

  /** Each changed key is reported exactly once and each vanished key exactly once. */
  lemma DeltaSizes(lastSnapshot: Cache, current: Cache, delta: DeltaUpdate)
    requires IsDelta(lastSnapshot, current, delta)
    ensures |delta.updated| == |ChangedKeys(lastSnapshot, current)|
    ensures |delta.removed| == |RemovedKeys(lastSnapshot, current)|
    ensures NoDuplicates(delta.updated)
  {
    NoDuplicatesCardinality(KeysOf(delta.updated));
    NoDuplicatesCardinality(delta.removed);
    DistinctKeysDistinctRecords(delta.updated);
  }

  /** Diffing a cache against itself reports nothing. */
  lemma SelfDiffIsEmpty(cache: Cache, delta: DeltaUpdate)
    requires IsDelta(cache, cache, delta)
    ensures delta == DeltaUpdate([], [])
  {
    DeltaSizes(cache, cache, delta);
    assert ChangedKeys(cache, cache) == {};
  }

  /** While no key leaves the cache, a viewer is never told of a removal. */
  lemma GrowingCacheRemovesNothing(lastSnapshot: Cache, current: Cache, delta: DeltaUpdate)
    requires IsDelta(lastSnapshot, current, delta)
    requires lastSnapshot.Keys <= current.Keys
    ensures delta.removed == []
  {
    DeltaSizes(lastSnapshot, current, delta);
    assert RemovedKeys(lastSnapshot, current) == {};
  }

  /** A new viewer, whose snapshot starts empty, is sent every record and no removal. */
  lemma FirstDeltaIsWholeCache(current: Cache, delta: DeltaUpdate)
    requires IsDelta(map[], current, delta)
    ensures delta.removed == []
    ensures Elements(delta.updated) == current.Values
  {
    GrowingCacheRemovesNothing(map[], current, delta);
    forall v | v in current.Values ensures v in Elements(delta.updated) {
      var k :| k in current && current[k] == v;
      ChangedRecordIsReported(map[], current, delta, k);
    }
  }

  /**
    The delta is determined by its two snapshots up to the order of its lists:
    diffing the same pair twice reports the same records and the same keys.
   */
  lemma DeltaUniqueUpToOrder(lastSnapshot: Cache, current: Cache, d1: DeltaUpdate, d2: DeltaUpdate)
    requires IsDelta(lastSnapshot, current, d1) && IsDelta(lastSnapshot, current, d2)
    ensures multiset(d1.updated) == multiset(d2.updated)
    ensures multiset(d1.removed) == multiset(d2.removed)
  {
    DeltaSizes(lastSnapshot, current, d1);
    DeltaSizes(lastSnapshot, current, d2);
    forall r | r in d1.updated ensures r in d2.updated {
      ChangedRecordIsReported(lastSnapshot, current, d2, r.keyExpr);
    }
    forall r | r in d2.updated ensures r in d1.updated {
      ChangedRecordIsReported(lastSnapshot, current, d1, r.keyExpr);
    }
    SameElementsPermutation(d1.updated, d2.updated);
    SameElementsPermutation(d1.removed, d2.removed);
  }
}
