/**
  The viewer side: the page script keeps its own map of topics and applies each
  delta message to it, first setting every updated record under its key
  expression, then deleting every removed key.
 */
module Page {
  import opened Topics
  import opened Diff

  /**
    `topics.set(r.keyExpr, r)` for each updated record, front to back: the
    keys of the records are added and every other entry is left alone.
   */
  function ApplyUpdates(topics: Cache, updated: seq<TopicData>): (result: Cache)
    ensures result.Keys == topics.Keys + Elements(KeysOf(updated))
    ensures forall k :: k in topics && k !in Elements(KeysOf(updated)) ==> result[k] == topics[k]
    decreases |updated|
  {
    if updated == [] then topics
    else
      KeysOfSuffix(updated, 1);
      assert Elements(KeysOf(updated)) == {updated[0].keyExpr} + Elements(KeysOf(updated[1..]));
      ApplyUpdates(topics[updated[0].keyExpr := updated[0]], updated[1..])
  }

  /** `topics.delete(k)` for each removed key, front to back: exactly those keys go. */
  function ApplyRemovals(topics: Cache, removed: seq<string>): (result: Cache)
    ensures result == topics - Elements(removed)
    decreases |removed|
  {
    if removed == [] then topics
    else
      assert Elements(removed) == {removed[0]} + Elements(removed[1..]);
      ApplyRemovals(topics - {removed[0]}, removed[1..])
  }

  /**
    The page's map after one delta message: the updated keys are added, the
    removed keys are gone, and every other entry is as it was.
   */
  function Apply(topics: Cache, delta: DeltaUpdate): (result: Cache)
    ensures result.Keys == (topics.Keys + Elements(KeysOf(delta.updated))) - Elements(delta.removed)
    ensures forall k :: k in topics && k !in Elements(KeysOf(delta.updated)) && k !in Elements(delta.removed) ==>
      result[k] == topics[k]
  {
    ApplyRemovals(ApplyUpdates(topics, delta.updated), delta.removed)
  }

  /**
    As `set` in a loop, the last record for a key expression wins: a record
    with no later record for the same key is what ends up under that key.
   */
  lemma {:induction false} LastUpdateWins(topics: Cache, updated: seq<TopicData>, i: nat)
    requires i < |updated|
    requires forall j :: i < j < |updated| ==> updated[j].keyExpr != updated[i].keyExpr
    ensures ApplyUpdates(topics, updated)[updated[i].keyExpr] == updated[i]
    decreases |updated|
  {
    var head, rest := updated[0], updated[1..];
    var next := topics[head.keyExpr := head];
    if i == 0 {
      assert head.keyExpr !in Elements(KeysOf(rest)) by {
        forall j | 0 <= j < |rest| ensures KeysOf(rest)[j] != head.keyExpr {
          assert rest[j] == updated[j + 1];
        }
      }
    } else {
      forall j | i - 1 < j < |rest| ensures rest[j].keyExpr != rest[i - 1].keyExpr {
        assert rest[j] == updated[j + 1];
      }
      LastUpdateWins(next, rest, i - 1);
    }
  }

  /**
    Applying records with distinct key expressions, as every correct delta
    has, files each one under its key expression.
   */
  lemma ApplyUpdatesEffect(topics: Cache, updated: seq<TopicData>)
    requires NoDuplicates(KeysOf(updated))
    ensures forall r :: r in updated ==> ApplyUpdates(topics, updated)[r.keyExpr] == r
  {
    forall r | r in updated ensures ApplyUpdates(topics, updated)[r.keyExpr] == r {
      var i :| 0 <= i < |updated| && updated[i] == r;
      forall j | i < j < |updated| ensures updated[j].keyExpr != updated[i].keyExpr {
        assert KeysOf(updated)[i] != KeysOf(updated)[j];
      }
      LastUpdateWins(topics, updated, i);
    }
  }

  /** The keys a correct delta leaves on the page are those of the current cache. */
  lemma DeltaKeys(lastSnapshot: Cache, current: Cache)
    ensures (lastSnapshot.Keys + ChangedKeys(lastSnapshot, current)) - RemovedKeys(lastSnapshot, current) == current.Keys
  {
  }

  /** After the updates of a correct delta, every key of the cache holds its current record. */
  lemma DeltaValue(lastSnapshot: Cache, current: Cache, delta: DeltaUpdate, k: string)
    requires IsDelta(lastSnapshot, current, delta)
    requires k in current
    ensures k in ApplyUpdates(lastSnapshot, delta.updated)
    ensures ApplyUpdates(lastSnapshot, delta.updated)[k] == current[k]
  {
    if k in ChangedKeys(lastSnapshot, current) {
      ApplyUpdatesEffect(lastSnapshot, delta.updated);
      var i :| 0 <= i < |delta.updated| && KeysOf(delta.updated)[i] == k;
      assert delta.updated[i] in delta.updated;
    } else {
      assert k in lastSnapshot && lastSnapshot[k] == current[k];
    }
  }

  /**
    Round trip: a page holding `lastSnapshot` that applies a correct delta
    ends up holding `current`.
   */
  lemma RoundTrip(lastSnapshot: Cache, current: Cache, delta: DeltaUpdate)
    requires IsDelta(lastSnapshot, current, delta)
    ensures Apply(lastSnapshot, delta) == current
  {
    var afterUpdates := ApplyUpdates(lastSnapshot, delta.updated);
    var result := afterUpdates - RemovedKeys(lastSnapshot, current);
    assert Apply(lastSnapshot, delta) == result;
    DeltaKeys(lastSnapshot, current);
    assert result.Keys == current.Keys;
    forall k | k in current ensures result[k] == current[k] {
      DeltaValue(lastSnapshot, current, delta, k);
    }
  }

  /** The page script's `topics` map. */
  class TopicTable {
    var topics: Cache

    constructor ()
      ensures topics == map[]
    {
      topics := map[];
    }

    /** Handles one delta message. */
    method OnMessage(delta: DeltaUpdate)
      modifies this
      ensures topics == Apply(old(topics), delta)
    {
      var updated, removed := delta.updated, delta.removed;
      for i := 0 to |updated|
        invariant ApplyUpdates(topics, updated[i..]) == ApplyUpdates(old(topics), updated)
      {
        assert updated[i..][1..] == updated[i + 1..];
        topics := topics[updated[i].keyExpr := updated[i]];
      }
      ghost var afterUpdates := topics;
      for i := 0 to |removed|
        invariant ApplyRemovals(topics, removed[i..]) == ApplyRemovals(afterUpdates, removed)
      {
        assert removed[i..][1..] == removed[i + 1..];
        topics := topics - {removed[i]};
      }
    }
  }
}
