# Zenoh topic monitor: topic cache and per-viewer delta stream

The monitor subscribes to every key expression on a Zenoh bus. It keeps one
`TopicData` record per topic in a shared map: the key expression, the size of
the last payload, the time it arrived and, optionally, its decoded text. A
browser page subscribes to a server-sent event stream. On each step of that
stream, it compares the cache with the private snapshot it took on its
previous step. It sends the records that are new or changed and the keys that
disappeared, then replaces its snapshot with the cache. Each step builds a
fresh `time::interval` and awaits its first tick (`src/main.rs:602-603`). The
first tick of a new interval completes at once, so the steps are not paced at
one second: the stream produces a delta, usually an empty one, whenever the
connection asks for the next event. The page applies each
delta to its own map of topics.

This project models three pieces of that, in `src/main.rs`:

- the cache upsert done for every received sample (module `Server`, class `Store`);
- the diff step of each viewer's stream (`Server.CollectUpdated`,
  `Server.CollectRemoved`, `Server.ComputeDelta`, class `Server.Consumer`),
  proved against the relation `Diff.IsDelta`;
- the page script's delta handler (module `Page`: the function `Apply` and the
  class `TopicTable`).

The module `Topics` holds the records, the delta message and small facts about
sequences without repetitions.

The record type is a Dafny datatype, so its equality is structural. That is
exactly the derived field-wise `PartialEq` the diff uses. A record whose
timestamp alone changed is therefore a changed record. Rust's `u64` is the
newtype `Topics.uint64`.

A Rust `HashMap` iterates in an unspecified order. The loops pick keys with
`:|`, and every contract is about sets, counts and repetition-freedom, never
about order. `Diff.IsDelta` says when a pair of lists correctly reports the
change between two snapshots. `Diff.DeltaUniqueUpToOrder` shows that any two
such reports are permutations of each other. This is how the model states that
the diff is a pure function of its two snapshots.

Two facts link the server to the page:

- The cache files every record under its own key expression. This is
  `Topics.WellKeyed`, the invariant `Store.Valid` maintains. It is what lets
  `ComputeDelta` produce a delta that satisfies `IsDelta`: the page files
  records by their key expression, so they must match the cache's keys.
- A page holding the old snapshot that applies any delta satisfying `IsDelta`
  ends up holding the current cache (`Page.RoundTrip`, used by
  `Consumer.Tick`).

`TopicData` has four fields and no rate estimate is kept. No code path
removes a key from the cache, so `Store.Ingest` only ever adds keys.
`Server.Run` interleaves samples and stream steps on one store, one viewer
and that viewer's page, which applies every delta it is sent. Its contract
says that:

- the cache ends as `Server.Replay` of the samples;
- exactly one delta is sent per stream step (`Server.TickCount`);
- the viewer's snapshot is the cache as it stood at the last stream step, or
  the starting snapshot before any (`Server.Viewed`);
- the page's map is the starting map with the sent deltas applied one by one,
  in order (`Server.ApplyAll`), and it always equals the viewer's snapshot;
- starting from a snapshot whose keys are all in the cache, as a new viewer's
  empty snapshot is, the snapshot never holds a key the cache lacks;
- as a result, none of the deltas sent carries a removal.

`Diff.GrowingCacheRemovesNothing` is the step behind this. The diff itself
still handles removal for any pair of snapshots.

## Model

| member | source | states |
|---|---|---|
| Server.Upsert | src/main.rs:82-90 | the inserted record sits under its key expression, the key set grows by that key alone, every other entry is unchanged, and the key-matches-record invariant is preserved |
| Server.Store.constructor | src/main.rs:690 | the cache starts empty and satisfies the invariant |
| Server.Store.Ingest | src/main.rs:72-90 | a sample with its key, payload size, timestamp and decoded text replaces the cache's record for that key; no key is ever removed; the invariant is kept |
| Server.CollectUpdated | src/main.rs:612-616 | the loop collects one record per new or changed key: the current record of every such key is collected, and every collected record is the current record of such a key; on a well-keyed cache their keys are repetition-free and are exactly the changed keys |
| Server.CollectRemoved | src/main.rs:618-620 | the loop collects each key of the last snapshot that is missing from the current cache, exactly once, and no other key |
| Server.ComputeDelta | src/main.rs:605-625 | both loops together: the facts about `updated` and `removed` above, and on a well-keyed cache a delta that satisfies `IsDelta` |
| Server.Consumer.constructor | src/main.rs:599 | a new viewer's snapshot starts empty |
| Server.Replay | src/main.rs:71-90 | the cache after a run of samples, each upserted in turn, keeps every earlier key and stays well-keyed |
| Server.Viewed | src/main.rs:599-625 | the snapshot a viewer holds after a run of events is the cache at its last stream step; started from a snapshot within the cache, its keys stay within the replayed cache's |
| Server.ApplyAll | src/main.rs:500-514 | the page's map after a run of messages, each applied in turn; when no message carries a removal, no key is lost |
| Server.Run | src/main.rs:690-701 | the subscriber, one viewer's stream and its page sharing the cache, as any interleaving of samples and stream steps: the cache ends as the replay of the samples and stays well-keyed; one delta is sent per stream step; the snapshot is the cache as of the last stream step; the page is its starting map with the sent deltas applied in order, and equals the snapshot; the snapshot's keys stay within the cache's; no delta sent carries a removal |
| Server.Consumer.Tick | src/main.rs:600-625 | one tick reports a correct delta from the old snapshot to the cache; applying it to the old snapshot gives the cache; the snapshot becomes the cache; the cache is only read |
| Diff.ChangedKeys | src/main.rs:612-616 | changed keys are keys of the current cache, and a key with an equal record in both snapshots is never among them |
| Diff.RemovedKeys | src/main.rs:609-610 | removed keys come from the last snapshot and are disjoint from the current cache |
| Diff.ChangedRecordIsReported | src/main.rs:612-616 | coverage: the current record of every new or changed key is in `updated` |
| Diff.FreshnessIsChange | src/main.rs:22-29 | a record that differs from the last one only in `received_timestamp` is reported in `updated` |
| Diff.UnchangedIsNotReported | src/main.rs:613 | a key with field-wise equal records in both snapshots is neither updated nor removed |
| Diff.RemovedExactly | src/main.rs:618-620 | a key is in `removed` if and only if it was in the last snapshot and is absent now |
| Diff.UpdatedRemovedDisjoint | src/main.rs:612-620 | no key is both updated and removed |
| Diff.DeltaSizes | src/main.rs:612-620 | `updated` has one entry per changed key and no duplicate records; `removed` has one entry per vanished key |
| Diff.SelfDiffIsEmpty | src/main.rs:612-620 | diffing a cache against itself gives two empty lists |
| Diff.GrowingCacheRemovesNothing | src/main.rs:618-620 | when no key left the cache since the last tick, `removed` is empty |
| Diff.FirstDeltaIsWholeCache | src/main.rs:599-616 | a viewer's first delta, taken against the empty snapshot, carries every record of the cache and no removal |
| Diff.DeltaUniqueUpToOrder | src/main.rs:605-625 | two correct deltas for the same pair of snapshots carry the same records and the same keys, up to order |
| Page.ApplyUpdates | src/main.rs:506-509 | setting the updated records adds exactly their key expressions and leaves every other entry alone |
| Page.ApplyRemovals | src/main.rs:511-514 | deleting the removed keys gives the map without exactly those keys |
| Page.Apply | src/main.rs:500-514 | after one message the map holds the old keys plus the updated keys minus the removed keys, and every entry not named by the message is as it was |
| Page.LastUpdateWins | src/main.rs:506-508 | when a key expression occurs more than once among the updated records, the last record for it is the one the page keeps |
| Page.ApplyUpdatesEffect | src/main.rs:506-509 | setting records with distinct key expressions files each record under its key expression |
| Page.RoundTrip | src/main.rs:500-514 | applying any delta that satisfies `IsDelta` to the last snapshot reproduces the current cache |
| Page.TopicTable.constructor | src/main.rs:333 | the page's topic map starts empty |
| Page.TopicTable.OnMessage | src/main.rs:500-514 | the two loops leave the page's map equal to `Apply` of the old map and the delta |

## Left out

- Rate estimation: `src/main.rs` has none, so the model has none either.
- The Zenoh session, the subscription and the `recv_async` loop are network
  I/O. Only the per-sample upsert they perform is modelled (`Store.Ingest`).
- `get_timestamp` reads the system clock. Timestamps are `uint64` arguments of
  `Ingest`. The `u64` cast of the payload length is also taken as given.
- `html_escape_string` and `src/decoder.rs` wrap external crates. Decoded
  content is an opaque `Option<string>` argument. `src/decoder.rs` is not part
  of this model.
- Page markup, rows, sorting, filtering and statistics (`updateRow`,
  `removeRow`, `updateStats`) are presentation. Only the map updates of the
  message handler are modelled.
- Warp routing, SSE framing, keep-alive and the `time::interval` await are
  transport and timing. Each stream step is one call of `Tick`.
- The `RwLock`/`Arc` sharing is concurrency. Each write-locked insert and each
  read-locked diff block is one atomic step.
- JSON serialization and the omission of empty arrays are left out. The page
  defaults a missing array to an empty one, so a delta always carries both
  lists here.
- The JavaScript `try`/`catch` around parsing and the two loops is left out.
  A row update that threw would stop the loops midway and leave the map
  partly updated; timestamps made by the clock cannot cause that, though the
  model's arbitrary `uint64` timestamps could exceed what `Date` accepts.
- Logging, Ctrl-C handling and process startup in `main` are left out.
- Server.CollectUpdated: on a cache that is not well-keyed, two changed keys
  can hold equal records. For that case it does not say how often each such
  record occurs. The cache is always well-keyed (`Store.Valid`).
- Server.ComputeDelta: the same restriction as `CollectUpdated` for the
  `updated` list.
