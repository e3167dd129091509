/**
  The server side: the shared topic cache that the subscriber writes, and the
  per-viewer diff step that the push stream runs on every tick. Each
  lock-protected block of the source is one atomic step here.
 */
module Server {
  import opened Topics
  import opened Diff
  import opened Page

  /** The cache after `insert(record.keyExpr, record)`. */
  function Upsert(cache: Cache, record: TopicData): (result: Cache)
    ensures result.Keys == cache.Keys + {record.keyExpr}
    ensures result[record.keyExpr] == record
    ensures forall k :: k in cache && k != record.keyExpr ==> result[k] == cache[k]
    ensures WellKeyed(cache) ==> WellKeyed(result)
  {
    cache[record.keyExpr := record]
  }

  /** The shared `HashMap<String, TopicData>` behind the lock. */
  class Store {
    var cache: Cache

    ghost predicate Valid()
      reads this
    {
      WellKeyed(cache)
    }

    constructor ()
      ensures Valid()
      ensures cache == map[]
    {
      cache := map[];
    }

    /**
      Records one received sample: its key expression, payload length, arrival
      time and optional decoded text replace whatever the cache held for that key.
     */
    method Ingest(keyExpr: string, dataBytes: uint64, timestamp: uint64, decodedContent: Option<string>)
      requires Valid()
      modifies this
      ensures Valid()
      ensures cache == Upsert(old(cache), TopicData(keyExpr, dataBytes, timestamp, decodedContent))
      ensures old(cache).Keys <= cache.Keys
    {
      var topicData := TopicData(keyExpr, dataBytes, timestamp, decodedContent);
      cache := cache[keyExpr := topicData];
    }
  }

  /**
    The first loop of one tick: every record of `current` whose key is new or
    whose record differs from the one in `lastSnapshot` is collected. The order
    in which keys are visited is left open, as a hash map's iteration order is.
   */
  method CollectUpdated(lastSnapshot: Cache, current: Cache) returns (updated: seq<TopicData>)
    ensures |updated| == |ChangedKeys(lastSnapshot, current)|
    ensures forall k :: k in ChangedKeys(lastSnapshot, current) ==> current[k] in updated
    ensures forall r :: r in updated ==> IsChangedRecord(lastSnapshot, current, r)
    ensures WellKeyed(current) ==>
      && NoDuplicates(KeysOf(updated))
      && Elements(KeysOf(updated)) == ChangedKeys(lastSnapshot, current)
      && forall r :: r in updated ==> r.keyExpr in current && current[r.keyExpr] == r
  {
    var lastKeys := lastSnapshot.Keys;
    updated := [];
    var pending := current.Keys;
    ghost var visited: seq<string> := [];
    while pending != {}
      invariant pending <= current.Keys
      invariant |visited| == |updated|
      invariant NoDuplicates(visited)
      invariant Elements(visited) == ChangedKeys(lastSnapshot, current) - pending
      invariant forall i :: 0 <= i < |visited| ==> visited[i] in current && updated[i] == current[visited[i]]
      decreases pending
    {
      var key :| key in pending;
      VisitStep(lastSnapshot, current, visited, pending, key);
      if key !in lastKeys || lastSnapshot[key] != current[key] {
        updated := updated + [current[key]];
        visited := visited + [key];
      }
      pending := pending - {key};
    }
    VisitedChangedKeys(lastSnapshot, current, visited, updated);
  }

  /** The second loop of one tick: every key seen last time and missing now. */
  method CollectRemoved(lastSnapshot: Cache, current: Cache) returns (removed: seq<string>)
    ensures NoDuplicates(removed)
    ensures Elements(removed) == RemovedKeys(lastSnapshot, current)
  {
    var currentKeys := current.Keys;
    var lastKeys := lastSnapshot.Keys;
    removed := [];
    var gone := lastKeys - currentKeys;
    while gone != {}
      invariant gone <= RemovedKeys(lastSnapshot, current)
      invariant NoDuplicates(removed)
      invariant Elements(removed) == RemovedKeys(lastSnapshot, current) - gone
      decreases gone
    {
      var key :| key in gone;
      assert key !in removed by { assert key !in Elements(removed); }
      NoDuplicatesAppend(removed, key);
      ElementsAppend(removed, key);
      removed := removed + [key];
      gone := gone - {key};
    }
  }

  /** Both loops of one tick: the delta from `lastSnapshot` to `current`. */
  method ComputeDelta(lastSnapshot: Cache, current: Cache) returns (delta: DeltaUpdate)
    ensures |delta.updated| == |ChangedKeys(lastSnapshot, current)|
    ensures forall k :: k in ChangedKeys(lastSnapshot, current) ==> current[k] in delta.updated
    ensures forall r :: r in delta.updated ==> IsChangedRecord(lastSnapshot, current, r)
    ensures NoDuplicates(delta.removed)
    ensures Elements(delta.removed) == RemovedKeys(lastSnapshot, current)
    ensures WellKeyed(current) ==> IsDelta(lastSnapshot, current, delta)
  {
    var updated := CollectUpdated(lastSnapshot, current);
    var removed := CollectRemoved(lastSnapshot, current);
    delta := DeltaUpdate(updated, removed);
  }

  /** Extending a cleared map by a cache copies the cache. */
  lemma ExtendEmpty(cleared: Cache, cache: Cache)
    requires cleared == map[]
    ensures cleared + cache == cache
  {
  }

  /** One viewer's push stream, with its private copy of the cache. */
  class Consumer {
    var lastSnapshot: Cache

    /** A new viewer starts from an empty snapshot. */
    constructor ()
      ensures lastSnapshot == map[]
    {
      lastSnapshot := map[];
    }

    /**
      One tick under the read lock: diffs the cache against the last snapshot,
      then replaces the snapshot by the cache. The cache itself is only read.
     */
    method Tick(store: Store) returns (delta: DeltaUpdate)
      requires store.Valid()
      modifies this
      ensures IsDelta(old(lastSnapshot), store.cache, delta)
      ensures Apply(old(lastSnapshot), delta) == store.cache
      ensures lastSnapshot == store.cache
      ensures store.cache == old(store.cache)
    {
      var current := store.cache;
      delta := ComputeDelta(lastSnapshot, current);
      RoundTrip(lastSnapshot, current, delta);
      lastSnapshot := map[];
      ExtendEmpty(lastSnapshot, current);
      lastSnapshot := lastSnapshot + current;
    }
  }

  /** One atomic step of the running program: a sample arrives, or a viewer's stream ticks. */
  datatype Event =
    | Sample(keyExpr: string, dataBytes: uint64, timestamp: uint64, decodedContent: Option<string>)
    | StreamTick

  /** The cache after the samples among `events`, upserted in order; stream steps leave it alone. */
  function Replay(cache: Cache, events: seq<Event>): (result: Cache)
    ensures cache.Keys <= result.Keys
    ensures WellKeyed(cache) ==> WellKeyed(result)
    decreases |events|
  {
    if events == [] then cache
    else
      var before := Replay(cache, events[..|events| - 1]);
      match events[|events| - 1]
      case Sample(keyExpr, dataBytes, timestamp, decodedContent) =>
        Upsert(before, TopicData(keyExpr, dataBytes, timestamp, decodedContent))
      case StreamTick => before
  }

  /** The number of stream steps among `events`. */
  function TickCount(events: seq<Event>): (count: nat)
    ensures count <= |events|
    decreases |events|
  {
    if events == [] then 0
    else TickCount(events[..|events| - 1]) + (if events[|events| - 1].StreamTick? then 1 else 0)
  }

  /**
    The viewer's snapshot after `events`: the cache as it stood at the last
    stream step, or the starting snapshot if no stream step has happened yet.
   */
  function Viewed(snapshot: Cache, cache: Cache, events: seq<Event>): (result: Cache)
    ensures snapshot.Keys <= cache.Keys ==> result.Keys <= Replay(cache, events).Keys
    decreases |events|
  {
    if events == [] then snapshot
    else if events[|events| - 1].StreamTick? then Replay(cache, events)
    else Viewed(snapshot, cache, events[..|events| - 1])
  }

  /** The page's map after applying `deltas` one message at a time, in order. */
  function ApplyAll(topics: Cache, deltas: seq<DeltaUpdate>): (result: Cache)
    ensures (forall d :: d in deltas ==> d.removed == []) ==> topics.Keys <= result.Keys
    decreases |deltas|
  {
    if deltas == [] then topics
    else
      assert forall d :: d in deltas[..|deltas| - 1] ==> d in deltas;
      Apply(ApplyAll(topics, deltas[..|deltas| - 1]), deltas[|deltas| - 1])
  }

  /**
    The subscriber task and one viewer's stream sharing the cache, run as an
    interleaving of their atomic steps, with the viewer's page applying every
    delta it is sent. The cache ends as the replay of the samples; one delta is
    sent per stream step; the snapshot is the cache as of the last stream step;
    the page is the sent deltas applied in order, and mirrors the snapshot. As no
    step removes a key, the snapshot never holds a key the cache lacks, and no
    delta carries a removal.
   */
  method Run(store: Store, consumer: Consumer, page: TopicTable, events: seq<Event>) returns (deltas: seq<DeltaUpdate>)
    requires store.Valid()
    requires consumer.lastSnapshot.Keys <= store.cache.Keys
    requires page.topics == consumer.lastSnapshot
    modifies store, consumer, page
    ensures store.Valid()
    ensures store.cache == Replay(old(store.cache), events)
    ensures consumer.lastSnapshot.Keys <= store.cache.Keys
    ensures consumer.lastSnapshot == Viewed(old(consumer.lastSnapshot), old(store.cache), events)
    ensures page.topics == ApplyAll(old(page.topics), deltas)
    ensures page.topics == consumer.lastSnapshot
    ensures |deltas| == TickCount(events)
    ensures forall d :: d in deltas ==> d.removed == []
  {
    deltas := [];
    for i := 0 to |events|
      invariant store.Valid()
      invariant store.cache == Replay(old(store.cache), events[..i])
      invariant consumer.lastSnapshot.Keys <= store.cache.Keys
      invariant consumer.lastSnapshot == Viewed(old(consumer.lastSnapshot), old(store.cache), events[..i])
      invariant page.topics == ApplyAll(old(page.topics), deltas)
      invariant page.topics == consumer.lastSnapshot
      invariant |deltas| == TickCount(events[..i])
      invariant forall d :: d in deltas ==> d.removed == []
    {
      assert events[..i + 1][..i] == events[..i];
      match events[i]
      case Sample(keyExpr, dataBytes, timestamp, decodedContent) =>
        store.Ingest(keyExpr, dataBytes, timestamp, decodedContent);
      case StreamTick =>
        ghost var previous := consumer.lastSnapshot;
        var delta := consumer.Tick(store);
        GrowingCacheRemovesNothing(previous, store.cache, delta);
        page.OnMessage(delta);
        assert (deltas + [delta])[..|deltas|] == deltas;
        deltas := deltas + [delta];
    }
    assert events[..|events|] == events;
  }
}
