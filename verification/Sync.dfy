/**
  One sync: fetch and verify the pointer, the manifest and the missing chunks from an origin that may
  answer anything, check every file, and only then activate.  The origin's answers are fixed for the
  sync, which asks for each object at most once.
  */
module Sync {
  import opened Common
  import opened Manifest
  import opened Freshness
  import opened CacheStore
  import Keyring

  datatype Origin = Origin(
    latest: Option<Bytes>, manifest: Digest -> Option<Bytes>, chunk: Digest -> Option<Bytes>)

  // The trust root, the identity pins, the aggregate ceilings and the clock reading.
  datatype Config = Config(
    ed: Keyring.Ed25519, ring: Keyring.Ring, bundleId: Option<string>, channel: Option<string>,
    totalBytes: int, maxFiles: int, now: real)

  datatype SyncError =
    | PointerMissing | PointerMalformed | BadSignature(verdict: Keyring.Verdict) | Expired | WrongIdentity
    | ManifestMissing | ManifestMismatch | ManifestMalformed | ManifestIdentity | TooManyFiles
    | ChunkMissing(hash: Digest) | TooManyBytes | ChunkInvalid(hash: Digest) | BadFile(index: nat) | NotFresher

  datatype SyncResult = SyncResult(version: string, manifestHash: Digest, fetched: nat, reused: nat, bytes: nat)

  // ------------------------------------------------------------------------------- the pointer

  function FetchedPointer(pr: Primitives, o: Origin): Option<VersionPointer> {
    if o.latest.None? then None else pr.parsePointer(o.latest.value)
  }

  function SignatureVerdict(cfg: Config, p: VersionPointer): Keyring.Verdict {
    Keyring.VerifyPointer(cfg.ed, cfg.ring, SigningBytes(p), p.signature, p.keyId)
  }

  /** `_check_identity`. */
  predicate Pinned(cfg: Config, p: VersionPointer) {
    && (cfg.bundleId.Some? ==> p.bundleId == cfg.bundleId)
    && (cfg.channel.Some? ==> p.channel == cfg.channel)
  }

  predicate Vouched(cfg: Config, p: VersionPointer) {
    SignatureVerdict(cfg, p).Verified? && !IsExpired(p, cfg.now) && Pinned(cfg, p)
  }

  // ------------------------------------------------------------------------------ the manifest

  /** The manifest the origin serves for `p`, when its bytes hash to the name and parse. */
  function FetchedManifest(pr: Primitives, o: Origin, p: VersionPointer): Option<IndexManifest> {
    match o.manifest(p.manifestHash)
    case None => None
    case Some(raw) => if pr.sha(raw) == p.manifestHash then pr.parseManifest(raw) else None
  }

  /** `_check_manifest_identity` and `_enforce_file_cap`. */
  predicate Admissible(cfg: Config, p: VersionPointer, m: IndexManifest) {
    (p.bundleId.Some? ==> m.bundleId == p.bundleId.value) && |m.files| <= cfg.maxFiles
  }

  // -------------------------------------------------------------------------------- the chunks

  /** `_missing_chunks`: presence of the name is all that is asked. */
  function Missing(m: IndexManifest, c: Cache): set<Digest> {
    Reachable(m) - c.chunks.Keys
  }

  function Fetched(o: Origin, hs: set<Digest>): map<Digest, Bytes> {
    map h | h in hs && o.chunk(h).Some? :: o.chunk(h).value
  }

  predicate ServesChunk(pr: Primitives, cap: nat, o: Origin, h: Digest) {
    o.chunk(h).Some? && ValidChunk(pr, cap, h, o.chunk(h).value)
  }

  function Weight(o: Origin, h: Digest): nat {
    if o.chunk(h).Some? then |o.chunk(h).value| else 0
  }

  /** The bytes served for a set of chunks, whatever order they are fetched in. */
  ghost function Total(o: Origin, hs: set<Digest>): nat {
    if hs == {} then 0
    else
      var h :| h in hs;
      Weight(o, h) + Total(o, hs - {h})
  }

  lemma {:induction false} TotalWithout(o: Origin, hs: set<Digest>, h: Digest)
    requires h in hs
    ensures Total(o, hs) == Weight(o, h) + Total(o, hs - {h})
    decreases hs
  {
    var first :| first in hs && Total(o, hs) == Weight(o, first) + Total(o, hs - {first});
    if first != h {
      TotalWithout(o, hs - {first}, h);
      TotalWithout(o, hs - {h}, first);
      assert hs - {first} - {h} == hs - {h} - {first};
    }
  }

  lemma TotalWith(o: Origin, hs: set<Digest>, h: Digest)
    requires h !in hs
    ensures Total(o, hs + {h}) == Total(o, hs) + Weight(o, h)
  {
    TotalWithout(o, hs + {h}, h);
    assert hs + {h} - {h} == hs;
  }

  lemma {:induction false} TotalGrows(o: Origin, part: set<Digest>, all: set<Digest>)
    requires part <= all
    ensures Total(o, part) <= Total(o, all)
    decreases all
  {
    if part != all {
      var h :| h in all && h !in part;
      TotalGrows(o, part, all - {h});
      TotalWithout(o, all, h);
    }
  }

  /** Each missing chunk is served whole and correct, and together they fit under the ceiling. */
  ghost predicate Fetchable(pr: Primitives, cap: nat, o: Origin, hs: set<Digest>, limit: int) {
    (forall h :: h in hs ==> ServesChunk(pr, cap, o, h)) && (hs == {} || Total(o, hs) <= limit)
  }

  // --------------------------------------------------------------------------- the transaction

  /** The store once `m` and its missing chunks are in. */
  function Filled(o: Origin, p: VersionPointer, m: IndexManifest, c: Cache): Cache
    requires o.manifest(p.manifestHash).Some?
  {
    c.(manifests := c.manifests[p.manifestHash := o.manifest(p.manifestHash).value],
       chunks := c.chunks + Fetched(o, Missing(m, c)))
  }

  /** Everything a sync demands of the origin's answers and of the store it starts from. */
  ghost predicate Acceptable<V(!new)>(pr: Primitives, caps: Caps, s: Scheme<V>, cfg: Config, o: Origin, c: Cache) {
    FetchedPointer(pr, o).Some? &&
    var p := FetchedPointer(pr, o).value;
    Vouched(cfg, p) && FetchedManifest(pr, o, p).Some? &&
    var m := FetchedManifest(pr, o, p).value;
    && Admissible(cfg, p, m)
    && Fetchable(pr, caps.chunkBytes, o, Missing(m, c), cfg.totalBytes)
    && AllMaterialize(pr, caps, Filled(o, p, m, c), m)
    && MayActivate(pr, s, c, p)
  }

  /** What an accepted sync leaves. */
  function Synced(pr: Primitives, o: Origin, c: Cache): Cache
    requires FetchedPointer(pr, o).Some? && FetchedManifest(pr, o, FetchedPointer(pr, o).value).Some?
  {
    var p := FetchedPointer(pr, o).value;
    Filled(o, p, FetchedManifest(pr, o, p).value, c).(active := Some(WireBytes(p)))
  }

  /** What it reports. */
  ghost function Report(pr: Primitives, o: Origin, c: Cache): SyncResult
    requires FetchedPointer(pr, o).Some? && FetchedManifest(pr, o, FetchedPointer(pr, o).value).Some?
  {
    var p := FetchedPointer(pr, o).value;
    var m := FetchedManifest(pr, o, p).value;
    SyncResult(p.version, p.manifestHash, |Missing(m, c)|, |Reachable(m) * c.chunks.Keys|, Total(o, Missing(m, c)))
  }

  lemma CountsAddUp(m: IndexManifest, c: Cache)
    ensures |Missing(m, c)| + |Reachable(m) * c.chunks.Keys| == |Reachable(m)|
  {
    assert Missing(m, c) + Reachable(m) * c.chunks.Keys == Reachable(m);
  }

  /** Materializing looks only at the chunks. */
  lemma SameChunksSameFiles(pr: Primitives, caps: Caps, a: Cache, b: Cache, m: IndexManifest)
    requires a.chunks == b.chunks && AllMaterialize(pr, caps, a, m)
    ensures AllMaterialize(pr, caps, b, m)
  {
    forall i | 0 <= i < |m.files| ensures Materialize(pr, caps, b, m.files[i]).Some? {
      assert Materialize(pr, caps, a, m.files[i]).Some?;
      AssembleKept(pr, caps.chunkBytes, a, b, m.files[i].chunks);
    }
  }

  /** After a sync the store serves exactly the vouched pointer, and every file of its manifest reads. */
  lemma SyncedServes<V(!new)>(pr: Primitives, caps: Caps, s: Scheme<V>, cfg: Config, o: Origin, c: Cache)
    requires pr.Reserializes() && Acceptable(pr, caps, s, cfg, o, c)
    ensures ActivePointer(pr, Synced(pr, o, c)) == FetchedPointer(pr, o)
    ensures ActiveManifest(pr, Synced(pr, o, c)) == FetchedManifest(pr, o, FetchedPointer(pr, o).value)
    ensures Serves(pr, caps, Synced(pr, o, c))
  {
    hide Vouched, Admissible, Fetchable, MayActivate, Materialize, Missing;
    var p := FetchedPointer(pr, o).value;
    var m := FetchedManifest(pr, o, p).value;
    SameChunksSameFiles(pr, caps, Filled(o, p, m, c), Synced(pr, o, c), m);
  }

  lemma FetchedWhole(pr: Primitives, cap: nat, o: Origin, hs: set<Digest>)
    requires forall h :: h in hs ==> ServesChunk(pr, cap, o, h)
    ensures Fetched(o, hs).Keys == hs
  {
    forall h | h in hs ensures h in Fetched(o, hs) {
      assert ServesChunk(pr, cap, o, h);
    }
  }

  lemma NothingMissing(pr: Primitives, cap: nat, o: Origin, m: IndexManifest, c: Cache, again: Cache)
    requires forall h :: h in Missing(m, c) ==> ServesChunk(pr, cap, o, h)
    requires again.chunks == c.chunks + Fetched(o, Missing(m, c))
    ensures Missing(m, again) == {}
  {
    FetchedWhole(pr, cap, o, Missing(m, c));
    hide Reachable, Fetched, ServesChunk;
    assert again.chunks.Keys == c.chunks.Keys + Missing(m, c);
  }

  /** Filling a store that holds it all already changes nothing. */
  lemma FilledTwice(o: Origin, p: VersionPointer, m: IndexManifest, again: Cache)
    requires o.manifest(p.manifestHash).Some? && p.manifestHash in again.manifests
    requires again.manifests[p.manifestHash] == o.manifest(p.manifestHash).value
    requires Missing(m, again) == {}
    ensures Filled(o, p, m, again) == again
  {
    hide Missing;
    assert Fetched(o, {}) == map[];
    assert again.chunks + map[] == again.chunks;
    assert again.manifests[p.manifestHash := o.manifest(p.manifestHash).value] == again.manifests;
  }

  /** Until it expires, the same release syncs again, fetching nothing and changing nothing. */
  lemma ResyncFetchesNothing<V(!new)>(pr: Primitives, caps: Caps, s: Scheme<V>, cfg: Config, later: real, o: Origin,
        c: Cache)
    requires pr.Reserializes() && Acceptable(pr, caps, s, cfg, o, c)
    requires !IsExpired(FetchedPointer(pr, o).value, later)
    ensures var again := Synced(pr, o, c);
            && Acceptable(pr, caps, s, cfg.(now := later), o, again)
            && Synced(pr, o, again) == again
            && Report(pr, o, again).fetched == 0 && Report(pr, o, again).bytes == 0
            && Report(pr, o, again).reused == |Reachable(FetchedManifest(pr, o, FetchedPointer(pr, o).value).value)|
  {
    var again := Synced(pr, o, c);
    var p := FetchedPointer(pr, o).value;
    var m := FetchedManifest(pr, o, p).value;
    SyncedServes(pr, caps, s, cfg, o, c);
    NothingMissing(pr, caps.chunkBytes, o, m, c, again);
    FilledTwice(o, p, m, again);
    CountsAddUp(m, again);
    SameChunksSameFiles(pr, caps, Filled(o, p, m, c), again, m);
    hide Filled, Missing, Reachable, AllMaterialize, ActiveManifest;
    assert Accepted(s, p, p);
  }

  // --------------------------------------------------------------------------- reading a file back

  /** `_file_entry`: the first entry of that path. */
  function EntryFor(files: seq<FileEntry>, path: string): Option<FileEntry> {
    if files == [] then None
    else if files[0].path == path then Some(files[0])
    else EntryFor(files[1..], path)
  }

  /** `materialize_file`. */
  function MaterializeFile(pr: Primitives, caps: Caps, c: Cache, m: IndexManifest, path: string): Option<Bytes> {
    match EntryFor(m.files, path)
    case None => None
    case Some(e) => Materialize(pr, caps, c, e)
  }

  lemma {:induction false} EntryIsFirst(files: seq<FileEntry>, i: nat)
    requires i < |files| && forall j :: 0 <= j < i ==> files[j].path != files[i].path
    ensures EntryFor(files, files[i].path) == Some(files[i])
  {
    if i > 0 {
      assert files[0].path != files[i].path;
      EntryIsFirst(files[1..], i - 1);
    }
  }

  // -------------------------------------------------------------------------- an honest origin

  /** The origin's own chunks, as a store would hold them. */
  function OriginChunks(o: Origin, m: IndexManifest): Cache {
    Cache(Fetched(o, Reachable(m)), map[], None)
  }

  /** The origin serves a whole release: a pointer, its manifest, and chunks that make up every file. */
  ghost predicate WholeRelease(pr: Primitives, caps: Caps, o: Origin, p: VersionPointer, m: IndexManifest) {
    && FetchedPointer(pr, o) == Some(p)
    && FetchedManifest(pr, o, p) == Some(m)
    && AllMaterialize(pr, caps, OriginChunks(o, m), m)
  }

  lemma WholeServesChunks(pr: Primitives, caps: Caps, o: Origin, p: VersionPointer, m: IndexManifest)
    requires WholeRelease(pr, caps, o, p, m)
    ensures forall h :: h in Reachable(m) ==> ServesChunk(pr, caps.chunkBytes, o, h)
  {
    MaterializedIsHeld(pr, caps, OriginChunks(o, m), m);
    forall h | h in Reachable(m) ensures ServesChunk(pr, caps.chunkBytes, o, h) {
      assert GetChunk(pr, caps.chunkBytes, OriginChunks(o, m), h).Some?;
    }
  }

  /** Two readable copies of a chunk have the same content. */
  lemma OneContentPerName(pr: Primitives, cap: nat, a: Cache, b: Cache, h: Digest)
    requires pr.CollisionFree() && GetChunk(pr, cap, a, h).Some? && GetChunk(pr, cap, b, h).Some?
    ensures GetChunk(pr, cap, a, h) == GetChunk(pr, cap, b, h)
  {
  }

  /**
    A device syncs from an origin that serves a whole release exactly when no chunk file it already
    holds for that release is invalid: a file left by a crash between write and check is taken for
    present, is never fetched again, and blocks the sync.
    */
  lemma HonestSyncExactlyWhen<V(!new)>(pr: Primitives, caps: Caps, s: Scheme<V>, cfg: Config, o: Origin, c: Cache,
        p: VersionPointer, m: IndexManifest)
    requires pr.CollisionFree() && WholeRelease(pr, caps, o, p, m)
    requires Vouched(cfg, p) && Admissible(cfg, p, m) && MayActivate(pr, s, c, p)
    requires Missing(m, c) == {} || Total(o, Missing(m, c)) <= cfg.totalBytes
    ensures Acceptable(pr, caps, s, cfg, o, c) <==>
            forall h :: h in Reachable(m) && h in c.chunks ==> ValidChunk(pr, caps.chunkBytes, h, c.chunks[h])
  {
    WholeServesChunks(pr, caps, o, p, m);
    var filled := Filled(o, p, m, c);
    if AllMaterialize(pr, caps, filled, m) {
      MaterializedIsHeld(pr, caps, filled, m);
      forall h | h in Reachable(m) && h in c.chunks ensures ValidChunk(pr, caps.chunkBytes, h, c.chunks[h]) {
        assert filled.chunks[h] == c.chunks[h];
      }
    }
    if forall h :: h in Reachable(m) && h in c.chunks ==> ValidChunk(pr, caps.chunkBytes, h, c.chunks[h]) {
      FilledReads(pr, caps, o, p, m, c);
    }
  }

  lemma FilledReads(pr: Primitives, caps: Caps, o: Origin, p: VersionPointer, m: IndexManifest, c: Cache)
    requires pr.CollisionFree() && WholeRelease(pr, caps, o, p, m)
    requires forall h :: h in Reachable(m) && h in c.chunks ==> ValidChunk(pr, caps.chunkBytes, h, c.chunks[h])
    ensures AllMaterialize(pr, caps, Filled(o, p, m, c), m)
    ensures forall e :: e in m.files ==>
              Materialize(pr, caps, Filled(o, p, m, c), e) == Materialize(pr, caps, OriginChunks(o, m), e)
  {
    WholeServesChunks(pr, caps, o, p, m);
    var filled, source := Filled(o, p, m, c), OriginChunks(o, m);
    forall h | h in Reachable(m) && GetChunk(pr, caps.chunkBytes, source, h).Some?
      ensures GetChunk(pr, caps.chunkBytes, filled, h) == GetChunk(pr, caps.chunkBytes, source, h)
    {
      assert h in filled.chunks && ValidChunk(pr, caps.chunkBytes, h, filled.chunks[h]);
      OneContentPerName(pr, caps.chunkBytes, filled, source, h);
    }
    forall i | 0 <= i < |m.files|
      ensures Materialize(pr, caps, filled, m.files[i]).Some?
      ensures Materialize(pr, caps, filled, m.files[i]) == Materialize(pr, caps, source, m.files[i])
    {
      var e := m.files[i];
      assert e in m.files && Materialize(pr, caps, source, e).Some?;
      assert forall r :: r in e.chunks ==> r.hash in Reachable(m);
      AssembleKept(pr, caps.chunkBytes, source, filled, e.chunks);
    }
  }

  // ------------------------------------------------------------------------- what a failure leaves

  /** Nothing that could be read is gone or different, and the active pointer is the same. */
  ghost predicate Grows(pr: Primitives, a: Cache, b: Cache) {
    && b.active == a.active
    && (forall h :: h in a.chunks ==> h in b.chunks && b.chunks[h] == a.chunks[h])
    && (forall h :: GetManifest(pr, a, h).Some? ==> GetManifest(pr, b, h) == GetManifest(pr, a, h))
  }

  /** A crash between write and check does leave such a file, under the very name of the chunk. */
  lemma CrashLeavesBadChunk<V(!new)>(pr: Primitives, caps: Caps, s: Scheme<V>, c: Cache, h: Digest, junk: Bytes)
    returns (run: seq<Cache>)
    requires h !in c.chunks && !ValidChunk(pr, caps.chunkBytes, h, junk)
    ensures CacheRun(pr, caps, s, run) && run[0] == c
    ensures h in run[|run| - 1].chunks && GetChunk(pr, caps.chunkBytes, run[|run| - 1], h).None?
  {
    run := [c] + [CacheNext(pr, c, WriteMissingChunk(h, junk))];
    ContinuesItself(pr, caps, s, [c]);
    ContinuesByStep(pr, caps, s, [c], [c], WriteMissingChunk(h, junk));
    ContinuedRun(pr, caps, s, [c], run);
  }

  /** A chunk file under its own name whose content is not the chunk. */
  ghost predicate Blocks(pr: Primitives, caps: Caps, c: Cache, h: Digest) {
    h in c.chunks && !ValidChunk(pr, caps.chunkBytes, h, c.chunks[h])
  }

  /** While such a file is there, no release that needs the chunk syncs. */
  lemma BlockedIsRefused<V(!new)>(pr: Primitives, caps: Caps, s: Scheme<V>, cfg: Config, o: Origin, c: Cache, m: IndexManifest,
                                  h: Digest)
    requires FetchedPointer(pr, o).Some? && FetchedManifest(pr, o, FetchedPointer(pr, o).value) == Some(m)
    requires h in Reachable(m) && Blocks(pr, caps, c, h)
    ensures !Acceptable(pr, caps, s, cfg, o, c)
  {
    var filled := Filled(o, FetchedPointer(pr, o).value, m, c);
    assert filled.chunks[h] == c.chunks[h];
    if AllMaterialize(pr, caps, filled, m) {
      MaterializedIsHeld(pr, caps, filled, m);
    }
  }

  /** The store after `gc`, which refuses or has nothing to do unless the store is collectable. */
  function AfterGc(pr: Primitives, c: Cache): Cache {
    if Collectable(pr, c) then Collected(pr, c) else c
  }

  /** A collection clears the block exactly when the active manifest does not name the chunk. */
  lemma GcUnblocksExactlyWhen(pr: Primitives, caps: Caps, c: Cache, h: Digest)
    requires Blocks(pr, caps, c, h)
    ensures Blocks(pr, caps, AfterGc(pr, c), h) <==> !Clears(pr, c, h)
  {
    if Collectable(pr, c) {
      assert h in Collected(pr, c).chunks <==> h in Reachable(ActiveManifest(pr, c).value);
    }
  }

  /** Chunk files are only added, as by every sync wherever it stops. */
  ghost predicate OnlyAdds(a: Cache, b: Cache) {
    forall h :: h in a.chunks ==> h in b.chunks && b.chunks[h] == a.chunks[h]
  }

  /** From a state to one that a call passes through or ends in: what every sync and every collection ensures. */
  ghost predicate CallAt(pr: Primitives, run: seq<Cache>, i: nat)
    requires i + 1 < |run|
  {
    OnlyAdds(run[i], run[i + 1]) || OnlyCollects(pr, run[i], run[i + 1])
  }

  /**
    So a block outlasts every run of calls in which no collection met an active manifest, fit for it,
    that does not name the chunk; all that time no release that needs the chunk syncs.
    */
  lemma {:induction false} BlockedStaysBlocked<V(!new)>(pr: Primitives, caps: Caps, s: Scheme<V>, cfg: Config, o: Origin,
                                                        run: seq<Cache>, m: IndexManifest, h: Digest, i: nat)
    requires FetchedPointer(pr, o).Some? && FetchedManifest(pr, o, FetchedPointer(pr, o).value) == Some(m)
    requires i < |run| && (forall j: nat :: j + 1 < |run| ==> CallAt(pr, run, j))
    requires h in Reachable(m) && Blocks(pr, caps, run[0], h)
    requires forall j :: 0 <= j < i && Clears(pr, run[j], h) ==> OnlyAdds(run[j], run[j + 1])
    ensures Blocks(pr, caps, run[i], h) && !Acceptable(pr, caps, s, cfg, o, run[i])
  {
    hide Acceptable, Clears, ValidChunk, FetchedManifest, FetchedPointer, Reachable;
    if i > 0 {
      BlockedStaysBlocked(pr, caps, s, cfg, o, run, m, h, i - 1);
      assert CallAt(pr, run, i - 1);
    }
    BlockedIsRefused(pr, caps, s, cfg, o, run[i], m, h);
  }

  lemma GrowsOnlyAdds(pr: Primitives, a: Cache, b: Cache)
    requires Grows(pr, a, b)
    ensures OnlyAdds(a, b)
  {
  }

  /** `after` is `before` continued by steps, none of which took anything readable away. */
  ghost predicate Additive<V(!new)>(pr: Primitives, caps: Caps, s: Scheme<V>, before: seq<Cache>, after: seq<Cache>) {
    && Continues(pr, caps, s, before, after)
    && forall i :: |before| - 1 <= i < |after| ==> Grows(pr, before[|before| - 1], after[i])
  }

  lemma AdditiveItself<V(!new)>(pr: Primitives, caps: Caps, s: Scheme<V>, run: seq<Cache>)
    requires run != []
    ensures Additive(pr, caps, s, run, run)
  {
    ContinuesItself(pr, caps, s, run);
  }

  /** Every state of an additive call only adds chunk files. */
  lemma AdditiveOnlyAdds<V(!new)>(pr: Primitives, caps: Caps, s: Scheme<V>, before: seq<Cache>, after: seq<Cache>)
    requires Additive(pr, caps, s, before, after)
    ensures before != [] && before <= after
    ensures forall i :: |before| - 1 <= i < |after| ==> OnlyAdds(before[|before| - 1], after[i])
  {
    hide CacheRun, StepsTo, StepsAt, Grows, OnlyAdds;
    forall i | |before| - 1 <= i < |after| ensures OnlyAdds(before[|before| - 1], after[i]) {
      GrowsOnlyAdds(pr, before[|before| - 1], after[i]);
    }
  }

  lemma AdditiveOn<V(!new)>(pr: Primitives, caps: Caps, s: Scheme<V>, a: seq<Cache>, b: seq<Cache>, c: seq<Cache>)
    requires Additive(pr, caps, s, a, b) && Additive(pr, caps, s, b, c)
    ensures Additive(pr, caps, s, a, c) && Continues(pr, caps, s, a, c)
  {
    ContinuesOn(pr, caps, s, a, b, c);
    hide CacheRun, StepsTo, StepsAt;
    forall i | |a| - 1 <= i < |c| ensures Grows(pr, a[|a| - 1], c[i]) {
      assert Grows(pr, a[|a| - 1], b[|b| - 1]);
      if i < |b| {
        assert c[i] == c[..|b|][i];
      } else {
        assert Grows(pr, b[|b| - 1], c[i]);
      }
    }
  }

  lemma AdditiveByStep<V(!new)>(pr: Primitives, caps: Caps, s: Scheme<V>, before: seq<Cache>, after: seq<Cache>,
        act: CacheAction)
    requires Additive(pr, caps, s, before, after) && CacheEnabled(pr, caps, s, after[|after| - 1], act)
    requires Grows(pr, before[|before| - 1], CacheNext(pr, after[|after| - 1], act))
    ensures Additive(pr, caps, s, before, after + [CacheNext(pr, after[|after| - 1], act)])
  {
    ContinuesByStep(pr, caps, s, before, after, act);
  }

  // -------------------------------------------------------------------------- the program's steps

  /** Fetched bytes go in under a name the store does not have; a bad chunk comes out again. */
  method Ingest<V(!new)>(store: FilesystemCacheStore<V>, h: Digest, stored: Bytes,
        ghost before: seq<Cache>) returns (ok: bool)
    requires store.Valid() && Additive(store.pr, store.caps, store.scheme, before, store.trail)
    requires h !in store.cache.chunks && h !in before[|before| - 1].chunks
    modifies store
    ensures store.Valid() && Additive(store.pr, store.caps, store.scheme, before, store.trail)
    ensures ok <==> ValidChunk(store.pr, store.caps.chunkBytes, h, stored)
    ensures ok ==> store.cache == old(store.cache).(chunks := old(store.cache).chunks[h := stored])
  {
    ghost var written := CacheNext(store.pr, store.cache, WriteMissingChunk(h, stored));
    ghost var bad := !ValidChunk(store.pr, store.caps.chunkBytes, h, stored);
    ghost var from := store.trail;
    assert Grows(store.pr, before[|before| - 1], from[|from| - 1]);
    AdditiveByStep(store.pr, store.caps, store.scheme, before, from, WriteMissingChunk(h, stored));
    if bad {
      AdditiveByStep(store.pr, store.caps, store.scheme, before, from + [written], RemoveBadChunk(h));
    }
    hide Additive, Grows, ValidChunk;
    ok := store.PutChunkCompressed(h, stored);
    assert from + [written] + [] == from + [written];
    assert written.chunks - {h} == from[|from| - 1].chunks - {h};
  }

  /** `_fetch_missing`: the running total is checked before each write. */
  method FetchMissing<V(!new)>(store: FilesystemCacheStore<V>, o: Origin, missing: set<Digest>, limit: int,
        ghost before: seq<Cache>)
    returns (r: Result<nat, SyncError>)
    requires store.Valid() && Additive(store.pr, store.caps, store.scheme, before, store.trail)
    requires missing !! store.cache.chunks.Keys && missing !! before[|before| - 1].chunks.Keys
    modifies store
    ensures store.Valid() && Additive(store.pr, store.caps, store.scheme, before, store.trail)
    ensures r.Ok? <==> Fetchable(store.pr, store.caps.chunkBytes, o, missing, limit)
    ensures r.Ok? ==> r.value == Total(o, missing)
    ensures r.Ok? ==> store.cache == old(store.cache).(chunks := old(store.cache).chunks + Fetched(o, missing))
    ensures r.Err? ==> ChunkFault(store.pr, store.caps.chunkBytes, o, missing, limit, r.error)
  {
    hide Additive, Total, ValidChunk, Fetched;
    var done: set<Digest> := {};
    var fetched := 0;
    NoneFetched(o, store.cache.chunks);
    while missing - done != {}
      invariant store.Valid() && Additive(store.pr, store.caps, store.scheme, before, store.trail)
      invariant done <= missing && fetched == Total(o, done) && (done == {} || fetched <= limit)
      invariant forall h :: h in done ==> ServesChunk(store.pr, store.caps.chunkBytes, o, h)
      invariant store.cache == old(store.cache).(chunks := old(store.cache).chunks + Fetched(o, done))
      invariant store.cache.chunks.Keys !! missing - done
      decreases missing - done
    {
      var h :| h in missing - done;
      var stored := o.chunk(h);
      if stored.None? {
        return Err(ChunkMissing(h));
      }
      TotalWith(o, done, h);
      TotalGrows(o, done + {h}, missing);
      if fetched + |stored.value| > limit {
        return Err(TooManyBytes);
      }
      var ok := Ingest(store, h, stored.value, before);
      if !ok {
        return Err(ChunkInvalid(h));
      }
      OneMoreFetched(o, old(store.cache).chunks, done, h);
      fetched := fetched + |stored.value|;
      done := done + {h};
    }
    assert done == missing by {
      assert forall h :: h in missing && h !in done ==> h in missing - done;
    }
    r := Ok(fetched);
  }

  lemma NoneFetched(o: Origin, files: map<Digest, Bytes>)
    ensures files + Fetched(o, {}) == files && Total(o, {}) == 0
  {
  }

  lemma OneMoreFetched(o: Origin, files: map<Digest, Bytes>, done: set<Digest>, h: Digest)
    requires o.chunk(h).Some?
    ensures (files + Fetched(o, done))[h := o.chunk(h).value] == files + Fetched(o, done + {h})
  {
  }

  /** What each refusal at the chunks says. */
  ghost predicate ChunkFault(pr: Primitives, cap: nat, o: Origin, missing: set<Digest>, limit: int, e: SyncError) {
    match e
    case ChunkMissing(h) => h in missing && o.chunk(h).None?
    case ChunkInvalid(h) => h in missing && o.chunk(h).Some? && !ServesChunk(pr, cap, o, h)
    case TooManyBytes => missing != {} && Total(o, missing) > limit
    case _ => false
  }

  /** `_verify_entry_reassembly`: one chunk at a time into the digest, never the whole file. */
  method VerifyEntry<V(!new)>(store: FilesystemCacheStore<V>, e: FileEntry) returns (ok: bool)
    ensures ok <==> Materialize(store.pr, store.caps, store.cache, e).Some?
  {
    if e.size > store.caps.fileBytes {
      return false;
    }
    var digested: Bytes := [];
    var size := 0;
    for i := 0 to |e.chunks|
      invariant Assemble(store.pr, store.caps.chunkBytes, store.cache, e.chunks[..i]) == Some(digested)
      invariant size == |digested|
    {
      var chunk := GetChunk(store.pr, store.caps.chunkBytes, store.cache, e.chunks[i].hash);
      if chunk.None? {
        AssembleReadsAll(store.pr, store.caps.chunkBytes, store.cache, e.chunks);
        return false;
      }
      size := size + |chunk.value|;
      digested := digested + chunk.value;
      assert e.chunks[..i + 1][..i] == e.chunks[..i];
    }
    assert e.chunks[..|e.chunks|] == e.chunks;
    return size == e.size && store.pr.sha(digested) == e.fileSha256;
  }

  /** `_verify_reassembly`. */
  method VerifyReassembly<V(!new)>(store: FilesystemCacheStore<V>, m: IndexManifest) returns (bad: Option<nat>)
    ensures bad.None? <==> AllMaterialize(store.pr, store.caps, store.cache, m)
    ensures bad.Some? ==> bad.value < |m.files| && Materialize(store.pr, store.caps, store.cache, m.files[bad.value]).None?
  {
    hide Materialize;
    for i := 0 to |m.files|
      invariant forall j :: 0 <= j < i ==> Materialize(store.pr, store.caps, store.cache, m.files[j]).Some?
    {
      var ok := VerifyEntry(store, m.files[i]);
      if !ok {
        return Some(i);
      }
    }
    return None;
  }

  ghost predicate PointerFault(pr: Primitives, cfg: Config, o: Origin, e: SyncError) {
    if o.latest.None? then e.PointerMissing?
    else if FetchedPointer(pr, o).None? then e.PointerMalformed?
    else
      var p := FetchedPointer(pr, o).value;
      if !SignatureVerdict(cfg, p).Verified? then e == BadSignature(SignatureVerdict(cfg, p))
      else if IsExpired(p, cfg.now) then e.Expired?
      else !Pinned(cfg, p) && e.WrongIdentity?
  }

  ghost predicate ManifestFault(pr: Primitives, cfg: Config, o: Origin, p: VersionPointer, e: SyncError) {
    match o.manifest(p.manifestHash)
    case None => e.ManifestMissing?
    case Some(raw) =>
      if pr.sha(raw) != p.manifestHash then e.ManifestMismatch?
      else match pr.parseManifest(raw)
        case None => e.ManifestMalformed?
        case Some(m) =>
          if p.bundleId.Some? && m.bundleId != p.bundleId.value then e.ManifestIdentity?
          else |m.files| > cfg.maxFiles && e.TooManyFiles?
  }

  /** `filled` is the store with everything fetched. */
  ghost predicate ContentFault<V(!new)>(pr: Primitives, caps: Caps, s: Scheme<V>, filled: Cache, p: VersionPointer,
        m: IndexManifest, e: SyncError) {
    match e
    case BadFile(i) => i < |m.files| && Materialize(pr, caps, filled, m.files[i]).None?
    case NotFresher => AllMaterialize(pr, caps, filled, m) && !MayActivate(pr, s, filled, p)
    case _ => false
  }

  /**
    What a refusal says of the origin's answers and of the store `c` the sync began with.  The checks
    run in a fixed order, so up to the chunks the error is determined.
    */
  ghost predicate Explains<V(!new)>(pr: Primitives, caps: Caps, s: Scheme<V>, cfg: Config, o: Origin, c: Cache,
        e: SyncError) {
    if FetchedPointer(pr, o).None? || !Vouched(cfg, FetchedPointer(pr, o).value) then PointerFault(pr, cfg, o, e)
    else
      var p := FetchedPointer(pr, o).value;
      if FetchedManifest(pr, o, p).None? || !Admissible(cfg, p, FetchedManifest(pr, o, p).value) then ManifestFault(pr, cfg, o, p, e)
      else
        var m := FetchedManifest(pr, o, p).value;
        if Fetchable(pr, caps.chunkBytes, o, Missing(m, c), cfg.totalBytes)
        then ContentFault(pr, caps, s, Filled(o, p, m, c), p, m, e)
        else ChunkFault(pr, caps.chunkBytes, o, Missing(m, c), cfg.totalBytes, e)
  }

  /** `_fetch_pointer` and `_check_identity`: signature, then expiry, then the pins. */
  method FetchPointer(pr: Primitives, cfg: Config, o: Origin) returns (r: Result<VersionPointer, SyncError>)
    ensures r.Ok? <==> FetchedPointer(pr, o).Some? && Vouched(cfg, FetchedPointer(pr, o).value)
    ensures r.Ok? ==> FetchedPointer(pr, o) == Some(r.value)
    ensures r.Ok? ==>
              && o.latest.Some? && pr.parsePointer(o.latest.value) == Some(r.value)
              && (cfg.bundleId.Some? ==> r.value.bundleId == cfg.bundleId)
              && (cfg.channel.Some? ==> r.value.channel == cfg.channel)
              && (r.value.expiresAt.Some? ==> cfg.now < r.value.expiresAt.value as real)
    ensures r.Ok? && Keyring.ValidRing(cfg.ed, cfg.ring) ==>
              exists e :: e in cfg.ring.keys && e.keyId !in cfg.ring.revoked
                     && cfg.ed.verifies(e.publicKey, SigningBytes(r.value), r.value.signature) && (r.value.keyId.Some? ==> e.keyId == r.value.keyId.value)
    ensures r.Err? ==> PointerFault(pr, cfg, o, r.error)
    ensures r == Err(Expired) || r == Err(WrongIdentity) ==> o.latest.Some? && pr.parsePointer(o.latest.value).Some?
    ensures r == Err(Expired) ==>
              var p := pr.parsePointer(o.latest.value).value;
              p.expiresAt.Some? && cfg.now >= p.expiresAt.value as real
    ensures r == Err(WrongIdentity) ==>
              var p := pr.parsePointer(o.latest.value).value;
              (cfg.bundleId.Some? && p.bundleId != cfg.bundleId) || (cfg.channel.Some? && p.channel != cfg.channel)
  {
    if o.latest.None? {
      return Err(PointerMissing);
    }
    var parsed := pr.parsePointer(o.latest.value);
    if parsed.None? {
      return Err(PointerMalformed);
    }
    var p := parsed.value;
    hide Keyring.VerifyPointer, SigningBytes;
    if Keyring.ValidRing(cfg.ed, cfg.ring) {
      Keyring.AcceptedExactlyWhen(cfg.ed, cfg.ring, SigningBytes(p), p.signature, p.keyId);
    }
    var verdict := Keyring.VerifyPointer(cfg.ed, cfg.ring, SigningBytes(p), p.signature, p.keyId);
    if !verdict.Verified? {
      return Err(BadSignature(verdict));
    }
    if IsExpired(p, cfg.now) {
      return Err(Expired);
    }
    if !Pinned(cfg, p) {
      return Err(WrongIdentity);
    }
    return Ok(p);
  }

  /** `_fetch_manifest`, `_check_manifest_identity` and `_enforce_file_cap`. */
  method FetchManifest<V(!new)>(store: FilesystemCacheStore<V>, cfg: Config, o: Origin, p: VersionPointer)
    returns (r: Result<IndexManifest, SyncError>)
    requires store.Valid() && store.pr.CollisionFree()
    modifies store
    ensures store.Valid() && Additive(store.pr, store.caps, store.scheme, old(store.trail), store.trail)
    ensures r.Ok? <==> FetchedManifest(store.pr, o, p).Some? && Admissible(cfg, p, FetchedManifest(store.pr, o, p).value)
    ensures r.Ok? ==> FetchedManifest(store.pr, o, p) == Some(r.value)
    ensures r.Ok? ==>
              && o.manifest(p.manifestHash).Some? && store.pr.sha(o.manifest(p.manifestHash).value) == p.manifestHash
              && store.pr.parseManifest(o.manifest(p.manifestHash).value) == Some(r.value)
              && (p.bundleId.Some? ==> r.value.bundleId == p.bundleId.value)
              && |r.value.files| <= cfg.maxFiles
    ensures r.Ok? ==> store.cache == old(store.cache).(manifests := old(store.cache).manifests[p.manifestHash := o.manifest(p.manifestHash).value])
    ensures r.Err? ==> ManifestFault(store.pr, cfg, o, p, r.error)
  {
    AdditiveItself(store.pr, store.caps, store.scheme, store.trail);
    var raw := o.manifest(p.manifestHash);
    if raw.None? {
      return Err(ManifestMissing);
    }
    if store.pr.sha(raw.value) != p.manifestHash {
      return Err(ManifestMismatch);
    }
    AdditiveByStep(store.pr, store.caps, store.scheme, store.trail, store.trail, WriteManifest(raw.value));
    hide Additive;
    var _ := store.PutManifest(raw.value);
    var parsed := store.pr.parseManifest(raw.value);
    if parsed.None? {
      return Err(ManifestMalformed);
    }
    if p.bundleId.Some? && parsed.value.bundleId != p.bundleId.value {
      return Err(ManifestIdentity);
    }
    if |parsed.value.files| > cfg.maxFiles {
      return Err(TooManyFiles);
    }
    return Ok(parsed.value);
  }

  /** `_fetch_missing`, then `_verify_reassembly`. */
  method FetchContent<V(!new)>(store: FilesystemCacheStore<V>, cfg: Config, o: Origin, p: VersionPointer,
        m: IndexManifest, ghost c: Cache)
    returns (r: Result<nat, SyncError>)
    requires store.Valid() && o.manifest(p.manifestHash).Some?
    requires store.cache == c.(manifests := c.manifests[p.manifestHash := o.manifest(p.manifestHash).value])
    modifies store
    ensures store.Valid() && Additive(store.pr, store.caps, store.scheme, old(store.trail), store.trail)
    ensures r.Ok? <==>
              && Fetchable(store.pr, store.caps.chunkBytes, o, Missing(m, c), cfg.totalBytes)
              && AllMaterialize(store.pr, store.caps, Filled(o, p, m, c), m)
    ensures r.Ok? ==> r.value == Total(o, Missing(m, c)) && store.cache == Filled(o, p, m, c)
    ensures r.Err? ==>
              if Fetchable(store.pr, store.caps.chunkBytes, o, Missing(m, c), cfg.totalBytes)
              then r.error.BadFile? && ContentFault(store.pr, store.caps, store.scheme, Filled(o, p, m, c), p, m, r.error)
              else ChunkFault(store.pr, store.caps.chunkBytes, o, Missing(m, c), cfg.totalBytes, r.error)
  {
    AdditiveItself(store.pr, store.caps, store.scheme, store.trail);
    hide Reachable, Fetched, Total, Fetchable, AllMaterialize, Materialize, Continues, Grows;
    var fetched := FetchMissing(store, o, Missing(m, store.cache), cfg.totalBytes, store.trail);
    if fetched.Err? {
      return Err(fetched.error);
    }
    assert store.cache == Filled(o, p, m, c);
    var bad := VerifyReassembly(store, m);
    if bad.Some? {
      return Err(BadFile(bad.value));
    }
    return Ok(fetched.value);
  }

  // Which stage decides: four facts about the order of the checks.

  lemma PointerDecides<V(!new)>(pr: Primitives, caps: Caps, s: Scheme<V>, cfg: Config, o: Origin, c: Cache, e: SyncError)
    requires FetchedPointer(pr, o).None? || !Vouched(cfg, FetchedPointer(pr, o).value)
    requires PointerFault(pr, cfg, o, e)
    ensures !Acceptable(pr, caps, s, cfg, o, c) && Explains(pr, caps, s, cfg, o, c, e)
  {
    hide PointerFault, Vouched, FetchedPointer;
  }

  lemma ManifestDecides<V(!new)>(pr: Primitives, caps: Caps, s: Scheme<V>, cfg: Config, o: Origin, c: Cache,
                                 p: VersionPointer, e: SyncError)
    requires FetchedPointer(pr, o) == Some(p) && Vouched(cfg, p)
    requires FetchedManifest(pr, o, p).None? || !Admissible(cfg, p, FetchedManifest(pr, o, p).value)
    requires ManifestFault(pr, cfg, o, p, e)
    ensures !Acceptable(pr, caps, s, cfg, o, c) && Explains(pr, caps, s, cfg, o, c, e)
  {
    hide ManifestFault, Vouched, FetchedPointer, Admissible;
  }

  lemma ContentDecides<V(!new)>(pr: Primitives, caps: Caps, s: Scheme<V>, cfg: Config, o: Origin, c: Cache,
                                p: VersionPointer, m: IndexManifest, e: SyncError)
    requires FetchedPointer(pr, o) == Some(p) && Vouched(cfg, p)
    requires FetchedManifest(pr, o, p) == Some(m) && Admissible(cfg, p, m)
    requires var fetchable := Fetchable(pr, caps.chunkBytes, o, Missing(m, c), cfg.totalBytes);
             && !(fetchable && AllMaterialize(pr, caps, Filled(o, p, m, c), m))
             && if fetchable then ContentFault(pr, caps, s, Filled(o, p, m, c), p, m, e)
                else ChunkFault(pr, caps.chunkBytes, o, Missing(m, c), cfg.totalBytes, e)
    ensures !Acceptable(pr, caps, s, cfg, o, c) && Explains(pr, caps, s, cfg, o, c, e)
  {
    hide ContentFault, ChunkFault, Vouched, FetchedPointer, Admissible, Fetchable, AllMaterialize, Missing;
  }

  lemma GuardDecides<V(!new)>(pr: Primitives, caps: Caps, s: Scheme<V>, cfg: Config, o: Origin, c: Cache,
                              p: VersionPointer, m: IndexManifest)
    requires FetchedPointer(pr, o) == Some(p) && Vouched(cfg, p)
    requires FetchedManifest(pr, o, p) == Some(m) && Admissible(cfg, p, m)
    requires Fetchable(pr, caps.chunkBytes, o, Missing(m, c), cfg.totalBytes)
    requires AllMaterialize(pr, caps, Filled(o, p, m, c), m)
    ensures Acceptable(pr, caps, s, cfg, o, c) <==> MayActivate(pr, s, c, p)
    ensures !MayActivate(pr, s, c, p) ==> Explains(pr, caps, s, cfg, o, c, NotFresher)
  {
    hide Vouched, FetchedPointer, Admissible, Fetchable, AllMaterialize, Missing;
  }

  /**
    `_sync_locked`.  It succeeds exactly when everything it checks holds, and then the store is the
    old one plus what was missing, with the new pointer active.  Until the very last write - and after
    any refusal, wherever the origin's answers stop it - the active pointer is the old one and nothing
    readable has changed.
    */
  method SyncLocked<V(!new)>(store: FilesystemCacheStore<V>, cfg: Config, o: Origin)
    returns (r: Result<SyncResult, SyncError>)
    requires store.Valid() && store.pr.CollisionFree() && store.pr.Reserializes()
    modifies store
    ensures store.Valid() && Continues(store.pr, store.caps, store.scheme, old(store.trail), store.trail)
    ensures r.Ok? <==> Acceptable(store.pr, store.caps, store.scheme, cfg, o, old(store.cache))
    ensures r.Ok? ==> store.cache == Synced(store.pr, o, old(store.cache))
    ensures r.Ok? ==> r.value == Report(store.pr, o, old(store.cache))
    ensures store.trail != []
    ensures Additive(store.pr, store.caps, store.scheme, old(store.trail),
                     if r.Ok? then store.trail[..|store.trail| - 1] else store.trail)
    ensures r.Err? ==> Explains(store.pr, store.caps, store.scheme, cfg, o, old(store.cache), r.error)
  {
    hide Acceptable, Explains, ContentFault, Vouched, Admissible, Reachable, Missing, Filled, Total, Fetchable, AllMaterialize,
      Materialize, Continues, Additive, MayActivate, FetchedManifest, FetchedPointer, PointerFault, ManifestFault, ChunkFault,
      CacheEnabled, WireBytes, Primitives.CollisionFree, Primitives.Reserializes, StepsTo, Keyring.VerifyPointer, SigningBytes;
    ghost var c := store.cache;
    ghost var before := store.trail;
    AdditiveItself(store.pr, store.caps, store.scheme, before);
    ContinuesItself(store.pr, store.caps, store.scheme, before);
    var pointer := FetchPointer(store.pr, cfg, o);
    if pointer.Err? {
      PointerDecides(store.pr, store.caps, store.scheme, cfg, o, c, pointer.error);
      return Err(pointer.error);
    }
    var p := pointer.value;
    var manifest := FetchManifest(store, cfg, o, p);
    ghost var listed := store.trail;
    AdditiveOn(store.pr, store.caps, store.scheme, before, before, listed);
    if manifest.Err? {
      ManifestDecides(store.pr, store.caps, store.scheme, cfg, o, c, p, manifest.error);
      return Err(manifest.error);
    }
    var m := manifest.value;
    Served(store.pr, o, p);
    var counts := Counts(store, m, c);
    var fetched := FetchContent(store, cfg, o, p, m, c);
    AdditiveOn(store.pr, store.caps, store.scheme, before, listed, store.trail);
    if fetched.Err? {
      ContentDecides(store.pr, store.caps, store.scheme, cfg, o, c, p, m, fetched.error);
      return Err(fetched.error);
    }
    ghost var filled := store.trail;
    GuardDecides(store.pr, store.caps, store.scheme, cfg, o, c, p, m);
    ActivateEnabled(store.pr, store.caps, store.scheme, o, p, m, c);
    var ok := store.Promote(p);
    assert filled + [] == filled;
    if !ok {
      return Err(NotFresher);
    }
    ContinuesByStep(store.pr, store.caps, store.scheme, before, filled, Activate(p));
    assert store.trail[..|store.trail| - 1] == filled;
    r := Ok(SyncResult(p.version, p.manifestHash, counts.0, counts.1, fetched.value));
  }

  lemma SyncedOnlyAdds<V(!new)>(pr: Primitives, caps: Caps, s: Scheme<V>, cfg: Config, o: Origin, c: Cache)
    requires Acceptable(pr, caps, s, cfg, o, c)
    ensures OnlyAdds(c, Synced(pr, o, c))
  {
    hide Reachable, Vouched, Fetchable, AllMaterialize, MayActivate;
  }

  lemma AcceptedReads<V(!new)>(pr: Primitives, caps: Caps, s: Scheme<V>, cfg: Config, o: Origin, c: Cache)
    requires Acceptable(pr, caps, s, cfg, o, c)
    ensures forall e :: e in FetchedManifest(pr, o, FetchedPointer(pr, o).value).value.files ==>
              Materialize(pr, caps, Synced(pr, o, c), e).Some?
  {
    hide Vouched, Fetchable, Materialize, MayActivate, Missing, WireBytes;
    var p := FetchedPointer(pr, o).value;
    var m := FetchedManifest(pr, o, p).value;
    SameChunksSameFiles(pr, caps, Filled(o, p, m, c), Synced(pr, o, c), m);
  }

  /** What an accepted sync established, in the fields of the documents the origin served. */
  lemma AcceptedMeans<V(!new)>(pr: Primitives, caps: Caps, s: Scheme<V>, cfg: Config, o: Origin, c: Cache)
    requires Acceptable(pr, caps, s, cfg, o, c)
    ensures && o.latest.Some? && pr.parsePointer(o.latest.value).Some?
            && var p := pr.parsePointer(o.latest.value).value;
               && (cfg.bundleId.Some? ==> p.bundleId == cfg.bundleId)
               && (cfg.channel.Some? ==> p.channel == cfg.channel)
               && (p.expiresAt.Some? ==> cfg.now < p.expiresAt.value as real)
               && (Keyring.ValidRing(cfg.ed, cfg.ring) ==>
                   exists e :: e in cfg.ring.keys && e.keyId !in cfg.ring.revoked
                     && cfg.ed.verifies(e.publicKey, SigningBytes(p), p.signature) && (p.keyId.Some? ==> e.keyId == p.keyId.value))
               && o.manifest(p.manifestHash).Some? && pr.sha(o.manifest(p.manifestHash).value) == p.manifestHash
               && pr.parseManifest(o.manifest(p.manifestHash).value).Some?
               && var m := pr.parseManifest(o.manifest(p.manifestHash).value).value;
                  && (p.bundleId.Some? ==> m.bundleId == p.bundleId.value)
                  && |m.files| <= cfg.maxFiles
                  && (Report(pr, o, c).fetched == 0 || Report(pr, o, c).bytes <= cfg.totalBytes)
                  && (forall e :: e in m.files ==> Materialize(pr, caps, Synced(pr, o, c), e).Some?)
                  && Report(pr, o, c).version == p.version && Report(pr, o, c).manifestHash == p.manifestHash
                  && Synced(pr, o, c).active == Some(WireBytes(p))
  {
    hide AllMaterialize, Materialize, MayActivate, Missing, Reachable, Total, WireBytes, SigningBytes, Keyring.VerifyPointer,
      Keyring.ValidRing;
    AcceptedReads(pr, caps, s, cfg, o, c);
    if Keyring.ValidRing(cfg.ed, cfg.ring) {
      var p := pr.parsePointer(o.latest.value).value;
      Keyring.AcceptedExactlyWhen(cfg.ed, cfg.ring, SigningBytes(p), p.signature, p.keyId);
    }
  }

  /** And what the refusals of a pointer or a manifest found there. */
  lemma RefusedMeans<V(!new)>(pr: Primitives, caps: Caps, s: Scheme<V>, cfg: Config, o: Origin, c: Cache, e: SyncError)
    requires Explains(pr, caps, s, cfg, o, c, e)
    ensures e.Expired? || e.WrongIdentity? || e.ManifestIdentity? || e.TooManyFiles? ==>
              o.latest.Some? && pr.parsePointer(o.latest.value).Some?
    ensures e.Expired? ==>
              var p := pr.parsePointer(o.latest.value).value;
              p.expiresAt.Some? && cfg.now >= p.expiresAt.value as real
    ensures e.WrongIdentity? ==>
              var p := pr.parsePointer(o.latest.value).value;
              (cfg.bundleId.Some? && p.bundleId != cfg.bundleId) || (cfg.channel.Some? && p.channel != cfg.channel)
    ensures e.ManifestIdentity? || e.TooManyFiles? ==>
              var p := pr.parsePointer(o.latest.value).value;
              && o.manifest(p.manifestHash).Some? && pr.parseManifest(o.manifest(p.manifestHash).value).Some?
              && var m := pr.parseManifest(o.manifest(p.manifestHash).value).value;
                 && (e.ManifestIdentity? ==> p.bundleId.Some? && m.bundleId != p.bundleId.value)
                 && (e.TooManyFiles? ==> |m.files| > cfg.maxFiles)
  {
    hide SignatureVerdict, Fetchable, Materialize, AllMaterialize, MayActivate, Missing, Reachable, Total, Filled, ServesChunk;
  }

  /** The trail of a sync: additive up to a last activation, if there is one. */
  lemma SyncTrailAdds<V(!new)>(pr: Primitives, caps: Caps, s: Scheme<V>, before: seq<Cache>, after: seq<Cache>, done: bool)
    requires after != [] && before != []
    requires Additive(pr, caps, s, before, if done then after[..|after| - 1] else after)
    requires done ==> OnlyAdds(before[|before| - 1], after[|after| - 1])
    ensures before <= after
    ensures forall i :: |before| - 1 <= i < |after| ==> OnlyAdds(before[|before| - 1], after[i])
    ensures !done ==> Grows(pr, before[|before| - 1], after[|after| - 1])
  {
    hide OnlyAdds, Grows, CacheRun, StepsTo, StepsAt;
    var states := if done then after[..|after| - 1] else after;
    AdditiveOnlyAdds(pr, caps, s, before, states);
    forall i | |before| - 1 <= i < |after| ensures OnlyAdds(before[|before| - 1], after[i]) {
      if i < |states| {
        assert after[i] == states[i];
      }
    }
  }

  /**
    `sync_index`: the transaction under the mutation lock.  No state it passes through, accepted or
    refused, has lost or changed a chunk file.
    */
  method SyncIndex<V(!new)>(store: FilesystemCacheStore<V>, cfg: Config, o: Origin)
    returns (r: Result<SyncResult, SyncError>)
    requires store.Valid() && store.pr.CollisionFree() && store.pr.Reserializes()
    modifies store
    ensures store.Valid() && Continues(store.pr, store.caps, store.scheme, old(store.trail), store.trail)
    ensures r.Ok? <==> Acceptable(store.pr, store.caps, store.scheme, cfg, o, old(store.cache))
    ensures r.Ok? ==> store.cache == Synced(store.pr, o, old(store.cache))
    ensures r.Ok? ==> r.value == Report(store.pr, o, old(store.cache))
    ensures r.Err? ==> Explains(store.pr, store.caps, store.scheme, cfg, o, old(store.cache), r.error)
    ensures r.Err? ==> Grows(store.pr, old(store.cache), store.cache)
    ensures old(store.trail) <= store.trail
    ensures forall i :: |old(store.trail)| - 1 <= i < |store.trail| ==> OnlyAdds(old(store.cache), store.trail[i])
    ensures r.Ok? ==>
              && o.latest.Some? && store.pr.parsePointer(o.latest.value).Some?
              && var p := store.pr.parsePointer(o.latest.value).value;
                 && (cfg.bundleId.Some? ==> p.bundleId == cfg.bundleId)
                 && (cfg.channel.Some? ==> p.channel == cfg.channel)
                 && (p.expiresAt.Some? ==> cfg.now < p.expiresAt.value as real)
                 && (Keyring.ValidRing(cfg.ed, cfg.ring) ==>
                     exists e :: e in cfg.ring.keys && e.keyId !in cfg.ring.revoked
                       && cfg.ed.verifies(e.publicKey, SigningBytes(p), p.signature) && (p.keyId.Some? ==> e.keyId == p.keyId.value))
                 && o.manifest(p.manifestHash).Some? && store.pr.sha(o.manifest(p.manifestHash).value) == p.manifestHash
                 && store.pr.parseManifest(o.manifest(p.manifestHash).value).Some?
                 && var m := store.pr.parseManifest(o.manifest(p.manifestHash).value).value;
                    && (p.bundleId.Some? ==> m.bundleId == p.bundleId.value)
                    && |m.files| <= cfg.maxFiles
                    && (r.value.fetched == 0 || r.value.bytes <= cfg.totalBytes)
                    && (forall e :: e in m.files ==> Materialize(store.pr, store.caps, store.cache, e).Some?)
                    && r.value.version == p.version && r.value.manifestHash == p.manifestHash
                    && store.cache.active == Some(WireBytes(p))
    ensures r == Err(Expired) || r == Err(WrongIdentity) || r == Err(ManifestIdentity) || r == Err(TooManyFiles) ==>
              o.latest.Some? && store.pr.parsePointer(o.latest.value).Some?
    ensures r == Err(Expired) ==>
              var p := store.pr.parsePointer(o.latest.value).value;
              p.expiresAt.Some? && cfg.now >= p.expiresAt.value as real
    ensures r == Err(WrongIdentity) ==>
              var p := store.pr.parsePointer(o.latest.value).value;
              (cfg.bundleId.Some? && p.bundleId != cfg.bundleId) || (cfg.channel.Some? && p.channel != cfg.channel)
    ensures r == Err(ManifestIdentity) || r == Err(TooManyFiles) ==>
              var p := store.pr.parsePointer(o.latest.value).value;
              && o.manifest(p.manifestHash).Some? && store.pr.parseManifest(o.manifest(p.manifestHash).value).Some?
              && var m := store.pr.parseManifest(o.manifest(p.manifestHash).value).value;
                 && (r == Err(ManifestIdentity) ==> p.bundleId.Some? && m.bundleId != p.bundleId.value)
                 && (r == Err(TooManyFiles) ==> |m.files| > cfg.maxFiles)
  {
    hide Acceptable, Explains, Synced, Report, OnlyAdds, Grows, Continues, Additive, WireBytes, SigningBytes, Keyring.ValidRing,
      Materialize;
    ghost var before := store.trail;
    r := SyncLocked(store, cfg, o);
    if r.Err? {
      RefusedMeans(store.pr, store.caps, store.scheme, cfg, o, before[|before| - 1], r.error);
    } else {
      AcceptedMeans(store.pr, store.caps, store.scheme, cfg, o, before[|before| - 1]);
      SyncedOnlyAdds(store.pr, store.caps, store.scheme, cfg, o, before[|before| - 1]);
    }
    SyncTrailAdds(store.pr, store.caps, store.scheme, before, store.trail, r.Ok?);
  }

  method Counts<V(!new)>(store: FilesystemCacheStore<V>, m: IndexManifest, ghost c: Cache) returns (counts: (nat, nat))
    requires store.cache.chunks == c.chunks
    ensures counts == (|Missing(m, c)|, |Reachable(m) * c.chunks.Keys|)
  {
    CountsAddUp(m, c);
    counts := (|Missing(m, store.cache)|, |Reachable(m)| - |Missing(m, store.cache)|);
  }

  lemma Served(pr: Primitives, o: Origin, p: VersionPointer)
    ensures FetchedManifest(pr, o, p).Some? ==> o.manifest(p.manifestHash).Some?
  {
  }

  lemma ActivateEnabled<V(!new)>(pr: Primitives, caps: Caps, s: Scheme<V>, o: Origin, p: VersionPointer,
        m: IndexManifest, c: Cache)
    requires pr.Reserializes() && FetchedPointer(pr, o) == Some(p) && FetchedManifest(pr, o, p) == Some(m)
    requires AllMaterialize(pr, caps, Filled(o, p, m, c), m)
    ensures MayActivate(pr, s, Filled(o, p, m, c), p) <==> MayActivate(pr, s, c, p)
    ensures MayActivate(pr, s, c, p) ==> CacheEnabled(pr, caps, s, Filled(o, p, m, c), Activate(p))
  {
  }
}
