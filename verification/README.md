# EdgeProc: a verified model

EdgeProc delivers signed, content-addressed bundles to devices and searches vectors there.  This
project models the parts that must survive crashes, concurrent readers, hostile origins and damaged
files, and proves what they promise.

- **Snapshot store** (`SnapshotProtocol`, `SnapshotDurability`, `SnapshotReader`, `SnapshotStore`,
  `LegacyMigration`, `MigrationWindow`, `ReadOnlyLoad`).  A machine takes one file operation per step and
  keeps what is durable apart from what was issued since the last directory fsync.  A power failure may
  lose any subset of the latter.  The classes issue every operation as a step of that machine, so the theorems about runs
  speak about them; the reader lets any number of foreign steps pass between its own operations.
- **Vector index** (`VectorCatalogue`, `VectorIndex`).  The append-only row store behaves like a plain
  map from id to embedding, and search is judged against that map; `PersistedIndex` puts it together with
  the snapshot store.
- **Bundles** (`Chunking`, `Bits`, `Json`, `Sorting`, `Manifest`, `Keyring`, `Freshness`, `CacheStore`,
  `Sync`, `Publish`).  Chunker arithmetic and edit locality, injectivity of everything that is hashed
  or signed, the keyring edit algebra, the rollback guard over whole runs, the device store under any
  interleaving of syncs and collections, the fetch-verify-activate transaction, and the producer.

## Abstractions

Library code enters as functions about which only the following is assumed, and only where a member
says so in its `requires`.

- SHA-256 is a function; no two inputs collide where `CollisionFree` is required.  A digest computed
  block by block is the digest of all blocks joined.
- zstd is a partial `decompress` that undoes `compress`.
- Ed25519 is a predicate on key, data and signature; `key_id_for` is any function to key ids, and two
  keys may share one.
- A version parser is any partial function into any total order (PEP 440 in the program).
- JSON parsers are partial functions; printing is modelled in full, except for the index sidecar, the
  snapshot manifest and the FAISS file, whose formats are taken to be lossless.  Where a text is
  read back, the parser is assumed to invert the printer on the documents concerned; the injectivity theorems are
  what makes such a parser possible (`Manifest.WireBytesInjective`, `Manifest.ManifestBytesInjective`,
  `Keyring.RingTextInjective`).
- A flat FAISS search returns some best `n` rows by score, ties broken in any way.
- A directory listing is one atomic step; generation names are fresh; rename and replace are atomic.
- The legacy pair and the snapshots share one directory in the model, so one directory fsync persists
  both; in the program they lie in two, and an unlink of the legacy pair may persist later.
- The persistence lock, the mutation lock and the index lock are taken as given: one writer at a time.
- Scores are reals; the clock is a parameter; the origin's answers are functions fixed for one sync,
  which asks for each object at most once.

## Where the code differs from its comments

- The mask comments give 13 and 11 set bits (`edgeproc/bundles/chunking.py:46-47`); the constants have
  15 and 12.  The constants are modelled, and no relation between the two tests is assumed.
- Versions are not monotone over runs, because an unparseable version is undecidable:
  `Freshness.VersionsCanFall`, with its exact condition in `Freshness.TwoStepsLowerExactlyWhen`.
- The over-fetch is described as enough to surface `k` live hits (`edgeproc/localvec/faiss_index.py:242-243`).
  Unfiltered that is true; with a filter, `VectorCatalogue.FullExactlyWhen` says exactly when.
- "A stored file can never lie" (`edgeproc/bundles/cas.py:8-12`) holds for reads, not for presence: a file left by a
  crash between write and check counts as present and blocks the sync that needs it
  (`Sync.HonestSyncExactlyWhen`, `Sync.BlockedStaysBlocked`).
- Migration is crash-safe except in one window: between the first manifest rename and its directory fsync
  a power failure can leave a directory that refuses to load although the legacy pair is whole
  (`MigrationWindow.WindowIsReached`; the exact condition is `MigrationWindow.SafeExactlyOutsideWindow`).

## Model

| member | source | states |
|---|---|---|
| `SnapshotDurability.CrashAtomicity` | edgeproc/localvec/snapshot_store.py:96-123 | In every state of every run of commits, collections and power failures, any image a power failure may leave (any subset of the un-fsynced operations lost) shows one whole published generation, never a mix and never one older than the last durable (none at all only if none was durable yet); with nothing published since the last fsync, exactly that one |
| `SnapshotDurability.CrashAtomicityFromStart` | edgeproc/localvec/snapshot_store.py:96-123 | The same for every run from a directory in which nothing was ever published, empty or legacy or littered by a crash |
| `SnapshotDurability.StartHolds` | edgeproc/localvec/snapshot_store.py:83-88 | Such a directory satisfies the invariant, so every run has a base |
| `SnapshotDurability.StartedRunKeeps` | edgeproc/localvec/snapshot_store.py:96-123 | Every state of every run from such a directory satisfies the invariant |
| `SnapshotDurability.NoLostUpdate` | edgeproc/localvec/snapshot_store.py:147-154 | In any state, of all published writers that loaded one revision there is at most one, and its commit directly follows that revision |
| `SnapshotDurability.OneDurableHeir` | edgeproc/localvec/snapshot_store.py:147-154 | Across all instants of a run, power failures included, at most one writer that loaded a given revision ever becomes durable |
| `SnapshotDurability.OneDurableHeirFromStart` | edgeproc/localvec/snapshot_store.py:147-154 | The same for every run from a directory in which nothing was published |
| `SnapshotDurability.DurableStays` | edgeproc/localvec/snapshot_store.py:203-211 | What was once durable is in the log of every later state; no power failure cuts it off |
| `SnapshotDurability.StepKeeps` | edgeproc/localvec/snapshot_store.py:203-232 | Every file operation of a commit, a collection, an abort or a clean-up keeps the invariant that each crash image is recoverable |
| `SnapshotDurability.PowerFailureKeeps` | edgeproc/localvec/snapshot_store.py:271-278 | After a power failure the invariant holds again, whichever pending operations were lost |
| `SnapshotDurability.PowerFailureTotal` | edgeproc/localvec/snapshot_store.py:271-278 | Every image the un-fsynced operations allow is one the system restarts from |
| `SnapshotDurability.CrashyRunKeeps` | edgeproc/localvec/snapshot_store.py:96-123 | The invariant holds at every instant of every run with power failures |
| `SnapshotDurability.PublishShows` | edgeproc/localvec/snapshot_store.py:203-211 | The manifest rename takes an image to the new generation when both data files are there, and otherwise leaves the generation it showed |
| `SnapshotDurability.PublishWhole` | edgeproc/localvec/snapshot_store.py:203-211 | With both data files in place the rename makes the new generation the newest complete one |
| `SnapshotDurability.PublishTorn` | edgeproc/localvec/snapshot_store.py:203-211 | With one of them missing the rename leaves the snapshot shown before |
| `SnapshotDurability.NextIsFree` | edgeproc/localvec/snapshot_store.py:182-192 | No image holds anything complete above the sequence the next commit takes, whatever incomplete manifests lie above it |
| `SnapshotReader.StartedHistory` | edgeproc/localvec/snapshot_store.py:125-134 | Any sequence of steps from a directory in which nothing was published is a history the reader theorems apply to |
| `SnapshotReader.CompleteExactlyWhen` | edgeproc/localvec/snapshot_store.py:136-145 | A snapshot is complete exactly when its manifest parses, repeats the sequence of its file name, and names two files that are there and hash to the digests it records |
| `SnapshotReader.EveryStepIsGentle` | edgeproc/localvec/snapshot_store.py:224-251 | Seen by a reader, one step only removes complete snapshots or publishes one as the newest, and never changes a settled data file |
| `SnapshotReader.DataWasThere` | edgeproc/localvec/snapshot_store.py:248-251 | Data files a listed manifest names can later only disappear, never change or come back |
| `SnapshotReader.ListedMeansSteady` | edgeproc/localvec/snapshot_store.py:170-174 | A snapshot complete at one instant and still listed later stayed complete, with the same payload, throughout |
| `SnapshotReader.PublishedMeanwhile` | edgeproc/localvec/snapshot_store.py:203-211 | A snapshot complete now but not earlier was, at some instant between, published as the newest |
| `SnapshotReader.ReaderLinearizes` | edgeproc/localvec/snapshot_store.py:125-180 | Between two equal listings, the first readable snapshot was the newest complete one at some instant |
| `SnapshotReader.NothingReadMeansNothingComplete` | edgeproc/localvec/snapshot_store.py:125-168 | If between two equal listings no listed snapshot could be read, none was complete when the listing was taken |
| `SnapshotStore.Reader.ReadPayload` | edgeproc/localvec/snapshot_store.py:136-145 | A lock-free read of one manifest and its two files, any number of foreign steps between its operations, returns a payload that was complete as a whole at one instant, or fails only if the snapshot was not complete throughout |
| `SnapshotStore.Reader.FirstComplete` | edgeproc/localvec/snapshot_store.py:159-168 | Stops at the first readable name; all names before it were at some time unreadable |
| `SnapshotStore.Reader.Latest` | edgeproc/localvec/snapshot_store.py:125-134 | Under arbitrary interference, the payload returned was the newest complete snapshot at some instant of the call, and each of the three refusals was true at some instant of it, and it gives up as unstable only after the listing changed three times, one after another |
| `SnapshotStore.Reader.Attempt` | edgeproc/localvec/snapshot_store.py:127-133 | One pass of the retry loop: a definite answer, or a listing that changed |
| `SnapshotStore.SnapshotStore.LatestLocked` | edgeproc/localvec/snapshot_store.py:150-152 | Under the lock, `latest` returns the last published generation |
| `SnapshotStore.SnapshotStore.CompleteManifests` | edgeproc/localvec/snapshot_store.py:234-243 | Exactly the listed manifests whose snapshot is complete, newest first |
| `SnapshotStore.SnapshotStore.NextSequence` | edgeproc/localvec/snapshot_store.py:182-192 | One above the newest complete sequence, skipping incomplete manifests; refused when the sequence space is used up |
| `SnapshotStore.SnapshotStore.Commit` | edgeproc/localvec/snapshot_store.py:96-106 | On return the new generation is durable and the newest; a stale or missing revision is refused with nothing touched, as is a commit past the last sequence, and only then; an I/O failure at any operation published it or left the log as it was; and after a success the generation before it still reads back whole, the fallback |
| `SnapshotStore.SnapshotStore.WriteGeneration` | edgeproc/localvec/snapshot_store.py:108-123 | Stage, publish, collect, clean up: success exactly when published and fsynced; the generation before it still reads back whole |
| `SnapshotStore.SnapshotStore.StageGeneration` | edgeproc/localvec/snapshot_store.py:271-278 | Staging publishes nothing; when it succeeds both data files are in place |
| `SnapshotStore.SnapshotStore.Fresh` | edgeproc/localvec/snapshot_store.py:83-88 | Opening a directory in which nothing was published gives a valid store with an empty log |
| `SnapshotStore.SnapshotStore.PublishGeneration` | edgeproc/localvec/snapshot_store.py:115-118 | Staging and publishing: success means durable and logged one above the last sequence, failure gives the commit up, and no manifest is unlisted either way |
| `SnapshotStore.SnapshotStore.CollectAfterCommit` | edgeproc/localvec/snapshot_store.py:213-217 | Whether the collection finishes, fails or stops, the new generation is the newest and the one before it still reads back whole |
| `SnapshotStore.SnapshotStore.CommitManifest` | edgeproc/localvec/snapshot_store.py:203-211 | Success means published and fsynced; failure published the generation or did not |
| `SnapshotStore.SnapshotStore.WriteManifest` | edgeproc/localvec/snapshot_store.py:203-207 | The manifest written aside names the staged files by what they hash to, and publishes nothing |
| `SnapshotStore.SnapshotStore.PublishManifest` | edgeproc/localvec/snapshot_store.py:208-211 | The rename publishes, the fsync makes it durable, and no manifest is unlisted; a failure published the generation or did not |
| `SnapshotStore.SnapshotStore.SettleManifest` | edgeproc/localvec/snapshot_store.py:209-211 | The directory fsync after the rename makes everything published durable, and the temporary name goes |
| `SnapshotStore.SnapshotStore.CollectOldGenerations` | edgeproc/localvec/snapshot_store.py:224-232 | Keeps the two newest complete generations untouched wherever it stops; a finished collection leaves at most two manifests, and no data file, staged or final, of a generation that no complete snapshot left has |
| `SnapshotStore.SnapshotStore.ChooseRetained` | edgeproc/localvec/snapshot_store.py:225-227 | The manifests kept are the two newest complete ones, or all when there are fewer |
| `SnapshotStore.TopTwoRetained` | edgeproc/localvec/snapshot_store.py:225-227 | Of two complete snapshots with consecutive sequences and nothing complete above them, a collection keeps both |
| `SnapshotStore.SnapshotStore.PredecessorStays` | edgeproc/localvec/snapshot_store.py:224-232 | The newest snapshot of an earlier state, as long as its manifest is listed, still reads back the same |
| `SnapshotStore.SnapshotStore.UnlinkOldManifests` | edgeproc/localvec/snapshot_store.py:228-230 | The kept snapshots stay readable while the other manifests go |
| `SnapshotStore.SnapshotStore.RemoveUnreferencedData` | edgeproc/localvec/snapshot_store.py:248-251 | Data files go exactly when no kept manifest names their generation |
| `LegacyMigration.MigrationNeverLoses` | edgeproc/localvec/faiss_index.py:440-450 | Migration attempts stopped anywhere and repeated any number of times: in every state a writable load still yields the original index and state |
| `LegacyMigration.LoadedValue` | edgeproc/localvec/faiss_index.py:375-384 | What a directory loads: its newest snapshot, the legacy pair when no manifest is listed, nothing when only incomplete manifests are |
| `LegacyMigration.DurableCopyLoads` | edgeproc/localvec/faiss_index.py:440-450 | Once a copy of the value is durable and only copies were published since, every crash image loads it |
| `MigrationWindow.SafeExactlyOutsideWindow` | edgeproc/localvec/faiss_index.py:375-384 | The exact limit of migration: in every state of every run of attempts, with crashes anywhere, and power failures outside the window or leaving an image that still loads the value, all crash images load the original value if and only if nothing is published yet or something is durable; the directory as seen by running processes always loads it |
| `MigrationWindow.WindowIsReached` | edgeproc/localvec/snapshot_store.py:203-211 | Every migration passes through the window between the manifest rename and its fsync: a run of seven steps from any legacy directory, and an image of its last state that refuses every load although the legacy pair is whole |
| `MigrationWindow.WindowImage` | edgeproc/localvec/faiss_index.py:379-382 | In the window some crash image lists a manifest, holds nothing complete, and loads no value |
| `MigrationWindow.MigratingIsEarly` | edgeproc/localvec/faiss_index.py:440-450 | Until something is durable the disk holds the legacy pair and no manifest, and the pending operations spare both until the rename |
| `LegacyMigration.IndexDirectory.LoadWritable` | edgeproc/localvec/faiss_index.py:375-384 | If the directory loads a value then so does every state passed through, and success returns it; success returns only what the directory loaded; if it loads nothing the call refuses and touches nothing; and unless an earlier fsync failed, every crash image of the final state loads what was returned |
| `LegacyMigration.IndexDirectory.MigrateLegacy` | edgeproc/localvec/faiss_index.py:440-450 | The legacy pair is read, committed and only then unlinked; success returns what the intact pair held; missing or invalid files are refused untouched |
| `LegacyMigration.IndexDirectory.CommitCopy` | edgeproc/localvec/faiss_index.py:445-450 | Every state from the start of the commit to the last unlink loads the same value, and so does every crash image of the last |
| `ReadOnlyLoad.ReadOnlyLoader.Load` | edgeproc/localvec/faiss_index.py:387-396 | Without the lock, while writers and the migration go on: a value returned is one the directory loaded at some instant of the call, and if the directory loads one value throughout, the call returns it or reports that commits were too frequent - the retry makes a vanishing legacy file harmless; each refusal was true at instants of the call, and a missing file is reported only after three attempts in a row found the legacy pair going away |
| `ReadOnlyLoad.ReadOnlyLoader.LoadOnce` | edgeproc/localvec/faiss_index.py:406-417 | One attempt: what it returns was loadable at one instant, what it calls invalid or unrecoverable was not, and a missing file means the legacy pair was retired after no manifest was listed |
| `ReadOnlyLoad.ReadOnlyLoader.ReadLegacy` | edgeproc/localvec/faiss_index.py:430-437 | Two separate file reads still give one pair, the one on disk when no manifest was listed |
| `ReadOnlyLoad.ReadOnlyLoader.VanishesOnce` | edgeproc/localvec/faiss_index.py:387-396 | Two attempts in a row cannot both find the legacy pair going away |
| `ReadOnlyLoad.LegacyWasThere` | edgeproc/localvec/faiss_index.py:440-450 | A legacy file seen later was there before with the same bytes |
| `ReadOnlyLoad.ListedEverAfter` | edgeproc/localvec/faiss_index.py:445-450 | Once a directory loads without a whole legacy pair, a manifest is listed ever after |
| `VectorCatalogue.LiveRowsCount` | edgeproc/localvec/faiss_index.py:153-165 | Exactly one row speaks for each live entity |
| `VectorCatalogue.DeadRowsCount` | edgeproc/localvec/faiss_index.py:242-244 | The dead rows are all rows less the live entities |
| `VectorCatalogue.PassesKeyByKey` | edgeproc/localvec/faiss_index.py:334-337 | A filter is the conjunction of its keys: no filter and an empty one pass everything, and one key more asks exactly that the entity have that value, an absent key counting as null |
| `VectorCatalogue.MatchingKeyByKey` | edgeproc/localvec/faiss_index.py:267-278 | The matches of a filter are the live entities that agree with it on every key it names |
| `VectorCatalogue.OverFetchReachesLive` | edgeproc/localvec/faiss_index.py:242-246 | Fetching `k` plus the dead rows reaches every row or at least `k` live ones |
| `VectorCatalogue.GatheredIsSound` | edgeproc/localvec/faiss_index.py:267-278 | Hits accepted are distinct live entities passing the filter, at their true distances, in ascending order |
| `VectorCatalogue.GatheredIsComplete` | edgeproc/localvec/faiss_index.py:267-278 | Every fetched authoritative row of a passing entity is accepted |
| `VectorCatalogue.NearMatchIsFound` | edgeproc/localvec/faiss_index.py:235-265 | A passing entity with fewer than `k` live entities as near is always returned, however ties break |
| `VectorCatalogue.ResultsAreNearest` | edgeproc/localvec/faiss_index.py:235-265 | No passing entity left out is nearer than one returned |
| `VectorCatalogue.SearchIsFull` | edgeproc/localvec/faiss_index.py:235-265 | As many results as asked for or existing, when the filter passes every live entity or none, or `k` reaches all live ones |
| `VectorCatalogue.FullExactlyWhen` | edgeproc/localvec/faiss_index.py:244-247 | That condition is exact for the inner product an IndexFlatIP computes: otherwise some query of the right dimension and some tie-breaking return too few, because the over-fetch counts dead rows only |
| `VectorCatalogue.FilterStarves` | edgeproc/localvec/faiss_index.py:244-247 | The witness: on the zero query of the index dimension a flat index may list every match last |
| `VectorCatalogue.ZeroQueryScoresZero` | edgeproc/localvec/faiss_index.py:246 | A zero query scores every row zero |
| `VectorCatalogue.InnerProductAppends` | edgeproc/localvec/faiss_index.py:246 | The score is the sum of the products of the coordinates |
| `VectorIndex.FaissVectorIndex.AddOne` | edgeproc/localvec/faiss_index.py:215-233 | Adds one entry to the plain id-to-embedding map, or refuses a live id or wrong dimension and changes nothing; which refusal is decided by those two conditions in that order |
| `VectorIndex.FaissVectorIndex.Insert` | edgeproc/localvec/faiss_index.py:210-213 | A batch inserts the embeddings before the first refused one and reports that refusal |
| `VectorIndex.FaissVectorIndex.Delete` | edgeproc/localvec/faiss_index.py:181-188 | Exactly the named live entities that pass the filter leave the map and become tombstones; rows stay; in the index's own maps, an entity stays exactly when it was live and is not named or differs from the filter on some key |
| `VectorIndex.FaissVectorIndex.Rebuild` | edgeproc/localvec/faiss_index.py:280-298 | Compaction keeps the map, leaves one row for each entity and no tombstones; a refused configuration changes nothing, and it is refused exactly unless its metric is cosine and its three graph options are the defaults |
| `VectorIndex.FaissVectorIndex.ReindexSurvivors` | edgeproc/localvec/faiss_index.py:293-298 | Row, id and vector of each survivor agree after compaction |
| `VectorIndex.FaissVectorIndex.Stats` | edgeproc/localvec/faiss_index.py:190-203 | Counts the live entities that agree with the filter on every key and, with no filter or an empty one, every row that speaks for nobody, deleted or superseded |
| `VectorIndex.FaissVectorIndex.CountPassing` | edgeproc/localvec/faiss_index.py:192 | The number of live entities passing the filter |
| `VectorIndex.FaissVectorIndex.Search` | edgeproc/localvec/faiss_index.py:235-247 | For any flat-index answer: distinct live entities, each agreeing with the filter on every key it names, at distance one less the score of its vector, nearest first and nearer than any match left out; exactly `min(k, live)` of them unfiltered |
| `VectorIndex.FaissVectorIndex.Collect` | edgeproc/localvec/faiss_index.py:249-265 | The loop with its early stop equals filtering all hits and taking the first `k` |
| `VectorIndex.FaissVectorIndex.Restore` | edgeproc/localvec/faiss_index.py:146-165 | The row loop rebuilds the live vectors and authoritative rows, last row winning |
| `VectorIndex.Load` | edgeproc/localvec/faiss_index.py:356-364 | Loading succeeds exactly when the file and sidecar validate and the configuration is supported; the index loaded is consistent; success means the metric is cosine and the three graph options are the defaults |
| `VectorIndex.SaveThenLoad` | edgeproc/localvec/faiss_index.py:127-165 | What is saved validates, and restoring it gives back the whole index, live map and row map included |
| `VectorIndex.RestoredIsConsistent` | edgeproc/localvec/faiss_index.py:453-460 | Whatever passes the three validation checks restores to a consistent index |
| `VectorIndex.ValidatesExactlyWhen` | edgeproc/localvec/faiss_index.py:453-460 | The files that pass validation are exactly those some consistent index saves |
| `VectorIndex.DeletedKeyByKey` | edgeproc/localvec/faiss_index.py:181-188 | What a deletion leaves, in terms of the live and metadata maps and each key of the filter |
| `PersistedIndex.SaveSurvivesPowerFailure` | edgeproc/localvec/faiss_index.py:115-133 | Save, power failure, load, end to end: in any run from a directory in which nothing was published, once the last generation is a durable save of an index, every crash image loads exactly that index |
| `PersistedIndex.PersistentIndex.Save` | edgeproc/localvec/faiss_index.py:115-125 | Commits both files against the loaded revision; success is durable, adopts the new revision and leaves the index as it was; a stale revision is refused with nothing touched |
| `PersistedIndex.Open` | edgeproc/localvec/faiss_index.py:356-372 | Opens exactly the index the directory held, from a snapshot or by migration, with its revision; a directory holding none is refused and left alone, one with an unsupported configuration is refused; unless an earlier fsync failed, every crash image of the final state loads the index opened |
| `PersistedIndex.Recover` | edgeproc/localvec/faiss_index.py:135-144 | Whatever crash image a durable save leaves, opening it succeeds and gives the same index and revision |
| `PersistedIndex.CodecIsFaithful` | edgeproc/localvec/faiss_index.py:420-437 | Whatever passed validation when read can be written and read back unchanged |
| `VectorIndex.RowMapIsLast` | edgeproc/localvec/faiss_index.py:153-165 | The rebuilt row map names the last row of each id that is not tombstoned |
| `Chunking.RollingHashIsWindowedSum` | edgeproc/bundles/chunking.py:59-76 | The 64-bit rolling hash is the sum of gear values weighted by powers of two over at most the last 64 bytes, modulo 2^64 |
| `Chunking.FingerprintIsSum` | edgeproc/bundles/chunking.py:67 | The hash is the weighted sum of everything fed, modulo 2^64 |
| `Chunking.LowBitsAreRecent` | edgeproc/bundles/chunking.py:67 | Its low `m` bits depend on at most the last `m` bytes |
| `Chunking.MaskTestIsLocal` | edgeproc/bundles/chunking.py:68-73 | A mask test below `2^m` is decided by the last `m` bytes, wherever they stand |
| `Chunking.MaskReach` | edgeproc/bundles/chunking.py:46-47 | The strict test depends on at most 50 bytes and the loose one on at most 48 |
| `Bits.AndByBits` | edgeproc/bundles/chunking.py:68-73 | A bit of the masked hash is set exactly when it is set in the hash and in the mask |
| `Chunking.CutIsTheFirst` | edgeproc/bundles/chunking.py:59-76 | The cut point is the one position that is the first to qualify after the minimum, or the forced end |
| `Chunking.CutByWindows` | edgeproc/bundles/chunking.py:59-76 | The cut in terms of the bytes alone, with the two masks and the word size written out: no byte before the last of the chunk passes the test on the weighted sum of at most 64 bytes since the skipped minimum - strict mask within the average size, loose beyond - and that last one does unless the maximum size or the end of the data forces the cut |
| `Chunking.CutProgresses` | edgeproc/bundles/chunking.py:95-99 | Every cut advances, exactly when the maximum size is positive |
| `Chunking.CutPoint` | edgeproc/bundles/chunking.py:59-76 | The two loops compute that cut point, which `CutByWindows` describes without them |
| `Chunking.Chunk` | edgeproc/bundles/chunking.py:92-99 | The loop yields the chunk sequence, whose boundaries are those of `ChunkAt` |
| `Chunking.ChunkAt` | edgeproc/bundles/chunking.py:92-99 | Every chunk starts where the ones before it end and ends at its own cut |
| `Chunking.ChunksJoin` | edgeproc/bundles/chunking.py:92-99 | The chunks join back to the data |
| `Chunking.ChunkSizes` | edgeproc/bundles/chunking.py:59-76 | No chunk is empty or over the maximum, and only the last may be at or below the minimum |
| `Chunking.SharedPrefix` | edgeproc/bundles/chunking.py:59-99 | Up to a boundary strictly inside a shared prefix two inputs have the same chunks |
| `Chunking.SharedSuffix` | edgeproc/bundles/chunking.py:59-99 | From boundaries that leave the same tail two inputs have the same chunks |
| `Chunking.EditLocality` | edgeproc/bundles/chunking.py:59-99 | The chunks of an edited input are old ones, then new ones between the last boundary in the prefix and the first in the suffix, then old ones |
| `Json.CanonicalBytesInjective` | edgeproc/bundles/manifest.py:220-233 | Equal canonical bytes mean equal documents: the JSON printer and UTF-8 encoder are injective over all strings (escaping of section 7 of RFC 8259) |
| `Json.TextDelimits` | edgeproc/bundles/manifest.py:231-233 | A printed value can be told apart from whatever follows it |
| `Json.PrintedForms` | edgeproc/bundles/manifest.py:231-233 | The texts of the scalars and of what stands around and between the items of an array |
| `Json.QuotedDelimits` | edgeproc/bundles/manifest.py:231-233 | A quoted string ends where it ends, whatever it contains |
| `Json.EscapeTable` | edgeproc/bundles/manifest.py:231-233 | The escapes of section 7 of RFC 8259, and every other character as itself |
| `Json.Utf8Injective` | edgeproc/bundles/manifest.py:231-233 | UTF-8 encoding is injective |
| `Manifest.SigningBytesInjective` | edgeproc/bundles/manifest.py:176-185 | Equal signing preimages mean every signed field is equal, in value and in whether it is set |
| `Manifest.SignedKeyByKey` | edgeproc/bundles/manifest.py:165-185 | Which value is signed under which key: the hash and the version always, each optional field when it is set, nothing else |
| `Manifest.SigningMembersAscend` | edgeproc/bundles/manifest.py:220-231 | The signed members come out sorted by key, so sorting changes nothing |
| `Manifest.LegacyPreimage` | edgeproc/bundles/manifest.py:165-185 | With no optional field set the preimage is the two-field form of the first release |
| `Manifest.WireBytesInjective` | edgeproc/bundles/manifest.py:151-162 | The serialized pointer, unset keyring fields omitted, determines the pointer |
| `Manifest.WireKeyByKey` | edgeproc/bundles/manifest.py:151-162 | Which value is served under which key, the older optional fields as null and the keyring fields left out when unset |
| `Manifest.ManifestBytesInjective` | edgeproc/bundles/manifest.py:220-238 | The canonical manifest bytes determine every file and chunk reference |
| `Manifest.ManifestKeyByKey` | edgeproc/bundles/manifest.py:220-233 | Which value stands under which key of the manifest document, its keys in order |
| `Manifest.FileEntryKeyByKey` | edgeproc/bundles/manifest.py:220-233 | The same for a file entry down to the hash and size of each chunk reference |
| `Manifest.FileKeysAscend` | edgeproc/bundles/manifest.py:220-233 | The keys of a file entry are in order |
| `Keyring.AcceptedExactlyWhen` | edgeproc/bundles/keyring.py:201-217 | A pointer is accepted exactly when a held, unrevoked key - the named one, if any - verifies it |
| `Keyring.RefusedExactlyWhen` | edgeproc/bundles/keyring.py:201-217 | Unknown exactly when the named key is neither held nor revoked; revoked exactly when the named key is, or, with none named, when only revoked keys verify |
| `Keyring.AddSucceedsExactlyWhen` | edgeproc/bundles/keyring.py:153-160 | Adding is refused exactly for something not a key, an id held or revoked, or a ring of 64 keys |
| `Keyring.RevokeSucceedsExactlyWhen` | edgeproc/bundles/keyring.py:163-172 | Revoking is refused exactly for an id that is not 16 lower-case hexadecimal digits, a list of 1024 others, or the last active key |
| `Keyring.AddKeyExtends` | edgeproc/bundles/keyring.py:153-160 | Adding a key adds just that key, and the ring stays valid |
| `Keyring.RevokeKeyExtends` | edgeproc/bundles/keyring.py:163-172 | Revoking adds just that revocation and forgets no key |
| `Keyring.AddOnlyGrows` | edgeproc/bundles/keyring.py:153-160 | Everything accepted before a key was added is accepted after |
| `Keyring.RevokeOnlyShrinks` | edgeproc/bundles/keyring.py:163-172 | What is accepted after a revocation was accepted before, does not name the revoked key, and verifies under another one |
| `Keyring.EditsKeepRevocations` | edgeproc/bundles/keyring.py:153-172 | Over any run of edits the ring stays valid, no key is forgotten and no revocation undone |
| `Keyring.RevokedStaysRefused` | edgeproc/bundles/keyring.py:208-217 | What is accepted at the end of a run verifies under a held key revoked at no earlier time |
| `Keyring.RingOfOneIsThePin` | edgeproc/bundles/signing.py:155-165 | A ring of one key gives the same verdict as the single pinned key, for every pointer |
| `Keyring.CanonicalIsValid` | edgeproc/bundles/keyring.py:121-127 | Sorting keeps a ring valid and its contents the same |
| `Keyring.CanonicalTwice` | edgeproc/bundles/keyring.py:121-127 | Canonical order is a fixed point |
| `Keyring.CanonicalAcceptsAlike` | edgeproc/bundles/keyring.py:201-217 | The order of keys and revocations does not matter to what is accepted |
| `Keyring.RingTextSize` | edgeproc/bundles/keyring.py:140-150 | Every valid ring prints to more than 32 bytes and at most 65536, so its file is never taken for a raw key or refused |
| `Keyring.HexAt` | edgeproc/bundles/keyring.py:175-182 | A key is printed two hexadecimal digits a byte, the high half first |
| `Keyring.WriteThenLoad` | edgeproc/bundles/keyring.py:140-182 | Writing a ring and loading the file gives the ring in canonical order; the parser is the one the text form itself determines |
| `Keyring.WriteThenLoadBy` | edgeproc/bundles/keyring.py:140-182 | The same for any parser that reads the text of every valid ring back |
| `Keyring.ParseRingReads` | edgeproc/bundles/keyring.py:135-137 | A parser that reads every valid ring text back exists |
| `Keyring.RingTextInjective` | edgeproc/bundles/keyring.py:175-182 | Two rings with one text are one ring |
| `Keyring.SameFileExactlyWhen` | edgeproc/bundles/keyring.py:175-182 | Two rings have the same file exactly when they hold the same keys and revocations |
| `Freshness.ReplacedNeverReturns` | edgeproc/bundles/cas.py:316-329 | Over any run of accepted promotes a pointer once replaced never becomes active again |
| `Freshness.AcceptedExactlyWhen` | edgeproc/bundles/cas.py:407-471 | The guard in the fields themselves: the active pointer again, or else a sequence higher than an active one (any, if there is none), no lower version, and an active sequence or a strictly higher version as proof; and which refusal is given when |
| `Freshness.SequenceRises` | edgeproc/bundles/manifest.py:198-217 | Once the active pointer has a sequence it always has one, and a change strictly raises it |
| `Freshness.AcceptedClimbs` | edgeproc/bundles/cas.py:407-434 | Every accepted change climbs a rank over (has sequence, sequence, version) |
| `Freshness.AboveTransitive` | edgeproc/bundles/cas.py:407-434 | The rank is transitive, though single-step acceptance is not |
| `Freshness.ParsedVersionsNeverFall` | edgeproc/bundles/cas.py:449-471 | Versions never go down as long as every version in between parses |
| `Freshness.TwoStepsLowerExactlyWhen` | edgeproc/bundles/cas.py:463-466 | Two accepted promotes can lower the version exactly when the one between does not parse |
| `Freshness.VersionsCanFall` | edgeproc/bundles/cas.py:463-466 | A concrete run: 2.0, then nightly, then 1.0, with rising sequences |
| `Freshness.ReplaceableExactlyWhen` | edgeproc/bundles/cas.py:421-446 | An active pointer can ever be replaced exactly when it has a sequence, or a version that some version exceeds |
| `CacheStore.ServesForever` | edgeproc/bundles/cas.py:224-373 | Whatever syncs and collections do, in whatever order and wherever they stop, a store that serves its active pointer always does: the manifest and every file read back |
| `CacheStore.CallServes` | edgeproc/bundles/cas.py:311-373 | The same for every state a single call passes through |
| `CacheStore.StepServes` | edgeproc/bundles/cas.py:239-373 | Each write, removal and activation keeps the active files readable |
| `CacheStore.StepRetains` | edgeproc/bundles/cas.py:239-373 | Every step but an activation keeps the active pointer and all that it reaches |
| `CacheStore.RetainedFilesRead` | edgeproc/bundles/sync.py:309-318 | What could be materialized through the active pointer still can, to the same bytes |
| `CacheStore.ActiveClimbs` | edgeproc/bundles/cas.py:311-329 | Over any interleaving the active pointer only climbs the rank and never disappears |
| `CacheStore.NoReplay` | edgeproc/bundles/cas.py:316-329 | No interleaving brings a replaced pointer back |
| `CacheStore.CollectedExactly` | edgeproc/bundles/cas.py:335-373 | A collection of a serving store leaves exactly the active manifest and the chunks it names, all readable |
| `CacheStore.FilesystemCacheStore.PutChunkCompressed` | edgeproc/bundles/cas.py:239-260 | Keeps the bytes exactly when they inflate, within the ceiling, to content of that name; the state between write and check is exposed |
| `CacheStore.FilesystemCacheStore.PutManifest` | edgeproc/bundles/cas.py:270-273 | The manifest can be read back under its hash, and nothing else changed |
| `CacheStore.FilesystemCacheStore.ReadActive` | edgeproc/bundles/cas.py:289-300 | None only when nothing was ever promoted; an unreadable pointer is an error |
| `CacheStore.FilesystemCacheStore.Promote` | edgeproc/bundles/cas.py:311-329 | Activates exactly when nothing is active or the readable active pointer may be replaced; a success over an active pointer means the same pointer, a higher sequence, or with no active sequence a higher version |
| `CacheStore.FilesystemCacheStore.Gc` | edgeproc/bundles/cas.py:331-348 | Does nothing with nothing promoted; keeps exactly the active manifest and its chunks, and counts what it removed; or refuses - exactly when pointer or manifest is unreadable or not canonical - and removes nothing; in no state on the way is a chunk file gone or changed that the active manifest names, valid or not; after a success only the active manifest file is left, and it was canonical |
| `CacheStore.FilesystemCacheStore.SweepChunks` | edgeproc/bundles/cas.py:350-357 | Removes exactly the chunks the manifest does not name, one unlink a step, the named ones untouched in every state |
| `CacheStore.FilesystemCacheStore.SweepManifests` | edgeproc/bundles/cas.py:366-373 | Removes every manifest but the active one |
| `CacheStore.AssembleReadsAll` | edgeproc/bundles/sync.py:309-318 | A file can be assembled exactly when each of its chunks can be read |
| `CacheStore.ReadsExactlyWhen` | edgeproc/bundles/cas.py:262-287 | A chunk reads exactly as content within the ceiling that hashes to its name, a manifest exactly as bytes that do |
| `CacheStore.MaterializesExactlyWhen` | edgeproc/bundles/sync.py:309-318 | A file reads back as given bytes exactly when they are within the ceiling, have the recorded size and hash, and are the concatenation of chunks each within its ceiling and named by its own hash |
| `CacheStore.MaterializedIsHeld` | edgeproc/bundles/sync.py:221-239 | A manifest whose files all materialize has every chunk it names held and valid |
| `Sync.SyncLocked` | edgeproc/bundles/sync.py:277-306 | Succeeds exactly when signature, expiry, pins, manifest hash and identity, caps, every missing chunk, every file and the rollback guard hold; then the store is the old one plus what was missing with the pointer active; until the last write, and after any refusal, the active pointer and everything readable are unchanged; each refusal names its true cause; `AcceptedMeans` and `RefusedMeans` say the same in the fields of the documents |
| `Sync.AcceptedMeans` | edgeproc/bundles/sync.py:277-306 | What an accepted sync established, in the fields of the documents the origin served |
| `Sync.RefusedMeans` | edgeproc/bundles/sync.py:75-170 | What a refusal for expiry, identity or file count found in those fields |
| `Sync.SyncIndex` | edgeproc/bundles/sync.py:242-274 | The call a device makes: the same outcome, and no state it passes through, accepted or refused, has lost or changed a chunk file; success means, in the documents the origin served: bundle and channel equal to each pin that is set, the clock below any expiry, a signature by a held unrevoked key, the manifest under its hash and of any bound bundle, the file and byte ceilings kept, and every file readable; and a refusal for expiry, identity or file count names fields that differ or exceed |
| `Sync.FetchPointer` | edgeproc/bundles/sync.py:95-158 | Vouched for exactly when signature, expiry and pins hold, judged in that order; in its fields: bundle and channel equal each pin that is set, the clock is below any expiry, a held unrevoked key verifies; a refusal for identity means one of the two fields differs from its pin |
| `Sync.FetchManifest` | edgeproc/bundles/sync.py:161-180 | Cached only when it hashes to its name; admitted exactly when it parses, matches the identity and is within the file cap; the bundle equals any bound one and the file count is within the cap |
| `Sync.FetchMissing` | edgeproc/bundles/sync.py:197-218 | Succeeds exactly when each missing chunk is served valid and their total fits, whatever the order; the running total equals that sum |
| `Sync.FetchContent` | edgeproc/bundles/sync.py:297-298 | After it the store is filled and every file reads, or the refusal says which chunk or file failed |
| `Sync.Ingest` | edgeproc/bundles/cas.py:239-260 | A fetched chunk goes in under a new name or comes out again; nothing present changes |
| `Sync.VerifyEntry` | edgeproc/bundles/sync.py:221-232 | The incremental check accepts exactly the files `materialize_file` can return |
| `Sync.VerifyReassembly` | edgeproc/bundles/sync.py:235-239 | Passes exactly when every file of the manifest materializes, and otherwise names one that does not |
| `Sync.SyncedServes` | edgeproc/bundles/sync.py:297-306 | After a success the store serves exactly the fetched pointer and manifest |
| `Sync.ResyncFetchesNothing` | edgeproc/bundles/sync.py:190-218 | Until it expires the same release syncs again, fetching nothing, reusing every chunk and changing nothing |
| `Sync.CountsAddUp` | edgeproc/bundles/sync.py:190-194 | Fetched plus reused is the number of distinct chunk hashes |
| `Sync.HonestSyncExactlyWhen` | edgeproc/bundles/sync.py:190-194 | From an origin serving a whole release, a trusted sync with room succeeds exactly when no chunk file already held for that release is invalid |
| `Sync.FilledReads` | edgeproc/bundles/sync.py:309-318 | Chunks already held and chunks fetched together give the same files as the origin's own |
| `Sync.CrashLeavesBadChunk` | edgeproc/bundles/cas.py:249-250 | A crash between write and check leaves a present but invalid chunk |
| `Sync.BlockedIsRefused` | edgeproc/bundles/sync.py:190-194 | While such a file is there, no release that needs the chunk syncs |
| `Sync.GcUnblocksExactlyWhen` | edgeproc/bundles/cas.py:331-357 | A collection clears the block exactly when it can run and the active manifest does not name the chunk |
| `Sync.BlockedStaysBlocked` | edgeproc/bundles/sync.py:190-194 | Over any run of calls, each adding chunk files as every state of a sync does or dropping only clearable ones as every state of a collection does, the block lasts until a collection that clears it; with nothing active none does |
| `Sync.EntryIsFirst` | edgeproc/bundles/sync.py:321-325 | A path finds its own entry when no earlier entry has that path |
| `Publish.Publisher.BuildLocked` | edgeproc/bundles/publish.py:80-109 | From any site, however damaged, the finished build announces the whole release; at every step on the way, if `latest` led to complete data before, it does; foreign flat chunks are untouched; the pointer carries every field of the label, names the manifest by its hash and is signed over exactly its signing bytes, and `latest` is its serialization |
| `Publish.Publisher.LayOut` | edgeproc/bundles/publish.py:156-175 | Manifest, then every chunk, then the pointer |
| `Publish.Publisher.PutChunk` | edgeproc/bundles/cas.py:224-237 | The stored file decompresses to the chunk afterwards, corrupt bytes replaced, a good file left alone |
| `Publish.Publisher.StoreFile` | edgeproc/bundles/publish.py:112-123 | The entry lists the file's chunks in order and every one of them is stored good |
| `Publish.Publisher.StoreFiles` | edgeproc/bundles/publish.py:95-96 | The manifest of the release, with every chunk it names stored good |
| `Publish.Publisher.PublishChunk` | edgeproc/bundles/publish.py:183-206 | The flat chunk equals the stored one, linked, copied in two visible steps, or rewritten when it differed |
| `Publish.Publisher.PublishChunks` | edgeproc/bundles/publish.py:178-180 | All wanted flat chunks equal the stored ones and no other changed |
| `Publish.NeverIncomplete` | edgeproc/bundles/publish.py:156-206 | At every step of any build, finished or not, `latest` leads only to a present manifest with every flat chunk valid |
| `Publish.ReleaseStays` | edgeproc/bundles/publish.py:156-206 | A release once complete stays complete over any run of builds, so a consumer of an older pointer is never cut off |
| `Publish.RacingSyncIsWhole` | edgeproc/bundles/sync.py:277-306 | A sync that races any number of builds, fetching the pointer at one instant and each object at any later one, is served the whole release announced |
| `Publish.StepKeepsComplete` | edgeproc/bundles/publish.py:156-206 | No single step breaks that |
| `Publish.RoundTrip` | edgeproc/bundles/publish.py:95-123 | Publish, sync, read: every path gives back the original bytes, fetched plus reused is the number of distinct chunks, a second sync fetches zero |
| `Publish.PublishedIsWhole` | edgeproc/bundles/publish.py:156-175 | What a finished build announces is a whole release to any device with room for it |
| `Publish.PublishedVerifies` | edgeproc/bundles/publish.py:126-153 | A release signed by a held, unrevoked key passes the consumer's signature check |
| `Publish.PointerCarries` | edgeproc/bundles/publish.py:126-153 | The pointer carries its label field by field, and the signature is over exactly what a consumer checks |
| `Publish.ReleaseDescribes` | edgeproc/bundles/publish.py:95-123 | The manifest carries the label and one entry a file in order, with its path, size and hash, the sizes of its chunks adding up |
| `Publish.ReleaseReads` | edgeproc/bundles/publish.py:112-123 | A store of good chunks gives every file of the release back byte for byte |
| `Publish.AssembleJoins` | edgeproc/bundles/sync.py:309-318 | Assembling the references of a chunk list gives the chunks joined |
| `Publish.EditFetchesOnlyBetween` | edgeproc/bundles/sync.py:190-194 | A device holding the old file's chunks lacks, of the edited file, only chunks between the two boundaries |

## Left out

- `edgeproc/cli`, `edgeproc/core`, settings, error catalogues, telemetry, the memory manager, the encoder, BM25 and fusion: plumbing, first-match rules or float scoring with little state.
- HTTP and file adapters, symlink and permission checks, path containment, file-name formatting, and validation of digest and path syntax inside the parsers: operating-system and string checks. A build whose path is refused stops before `latest` like any other crash.
- Temporary files of `_atomic_write` and a failed unlink of one: the write is one atomic replace.
- Power-failure reordering in the bundle store and the producer: their runs stop in program order. In the device store each write and its directory are fsynced before the next; only unlinks are not, and one lost leaves a swept or refused file in place. The producer fsyncs the chunk links together before `latest`, and the new `chunk` and `manifest` directories are first persisted by the root fsync after the `latest` replace: on a first publish a power failure between those two can leave `latest` without them, which is not modelled.
- Transient I/O errors in the lock-free reader: a read fails only because the file is not there.
- A verifier without key selection: the verifier is a keyring, and a single pinned key is the ring of one.
- Lock timeouts and asynchronous scheduling: each locked method is one uninterrupted call.
- Float rounding of scores and distances, `index_size_mb`, and float values in manifest metadata: scores are reals, the size is a constant multiple, metadata values are strings, integers, booleans or null.
- Non-positive maximum chunk sizes, for which the chunker never ends.
- Ed25519, SHA-256, zstd, FAISS and PEP 440 internals, and the generation of the gear table from its seed: any table of 256 entries.
