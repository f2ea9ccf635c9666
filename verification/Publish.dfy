/**
  The producer: chunk the files, store what is new, and lay out the flat origin beside the store with
  the signed pointer last.  Every write replaces a whole directory entry, so two names that share one
  file never change together; only the fallback copy can be seen half done.
  */
module Publish {
  import opened Common
  import opened Manifest
  import opened Freshness
  import opened CacheStore
  import opened Sync
  import Chunking
  import Keyring

  // The producer's store with the flat origin the web server exposes.
  datatype Site = Site(
    store: map<Digest, Bytes>, manifests: map<Digest, Bytes>,
    flatChunks: map<Digest, Bytes>, flatManifests: map<Digest, Bytes>, latest: Option<Bytes>)

  datatype SourceFile = SourceFile(path: string, data: Bytes)

  // What a release is labelled with.
  datatype Label = Label(
    bundleId: string, version: string, bindIdentity: bool, channel: Option<string>,
    sequence: Option<nat>, keyId: Option<string>, expiresAt: Option<nat>)

  // ------------------------------------------------------------------------------- the documents

  function Refs(pr: Primitives, chunks: seq<Bytes>): seq<ChunkRef> {
    seq(|chunks|, i requires 0 <= i < |chunks| => ChunkRef(pr.sha(chunks[i]), |chunks[i]|))
  }

  function EntryOf(pr: Primitives, gear: Chunking.Gear, sz: Chunking.Sizes, f: SourceFile): FileEntry
    requires sz.max > 0
  {
    FileEntry(f.path, None, |f.data|, pr.sha(f.data), Refs(pr, Chunking.Chunks(gear, sz, f.data, 0)))
  }

  function ReleaseOf(pr: Primitives, gear: Chunking.Gear, sz: Chunking.Sizes, files: seq<SourceFile>,
        l: Label): IndexManifest
    requires sz.max > 0
  {
    IndexManifest(2, l.bundleId, l.version,
                  seq(|files|, i requires 0 <= i < |files| => EntryOf(pr, gear, sz, files[i])), [])
  }

  /** `_sign_pointer`. */
  function PointerTo(pr: Primitives, sign: Bytes -> string, m: IndexManifest, l: Label): VersionPointer {
    var unsigned := VersionPointer(
      pr.sha(ManifestBytes(m)), l.version, if l.bindIdentity then Some(l.bundleId) else None,
      l.channel, l.sequence, l.keyId, l.expiresAt, "");
    unsigned.(signature := sign(SigningBytes(unsigned)))
  }

  /** The pointer carries its label, and the signature is over exactly what a consumer checks. */
  lemma PointerCarries(pr: Primitives, sign: Bytes -> string, m: IndexManifest, l: Label)
    ensures var p := PointerTo(pr, sign, m, l);
            && p.manifestHash == pr.sha(ManifestBytes(m)) && p.version == l.version
            && p.bundleId == (if l.bindIdentity then Some(l.bundleId) else None) && p.channel == l.channel
            && p.sequence == l.sequence && p.keyId == l.keyId && p.expiresAt == l.expiresAt
            && p.signature == sign(SigningBytes(p))
  {
    var p := PointerTo(pr, sign, m, l);
    assert SignedFields(p) == SignedFields(p.(signature := ""));
  }

  function TotalSize(refs: seq<ChunkRef>): int {
    if refs == [] then 0 else refs[0].size + TotalSize(refs[1..])
  }

  lemma {:induction false} RefsAddUp(pr: Primitives, chunks: seq<Bytes>)
    ensures TotalSize(Refs(pr, chunks)) == |Chunking.Joined(chunks)|
  {
    if chunks != [] {
      assert Refs(pr, chunks)[1..] == Refs(pr, chunks[1..]);
      RefsAddUp(pr, chunks[1..]);
    }
  }

  /** The manifest of a release: labelled, one entry a file in order, and in each the chunk sizes add up. */
  lemma ReleaseDescribes(pr: Primitives, gear: Chunking.Gear, sz: Chunking.Sizes, files: seq<SourceFile>, l: Label)
    requires sz.max > 0
    ensures var m := ReleaseOf(pr, gear, sz, files, l);
            && m.schemaVersion == 2 && m.bundleId == l.bundleId && m.version == l.version && |m.files| == |files|
            && forall i :: 0 <= i < |files| ==>
                 && m.files[i].path == files[i].path
                 && m.files[i].size == |files[i].data| == TotalSize(m.files[i].chunks)
                 && m.files[i].fileSha256 == pr.sha(files[i].data)
  {
    forall i | 0 <= i < |files| ensures TotalSize(EntryOf(pr, gear, sz, files[i]).chunks) == |files[i].data| {
      RefsAddUp(pr, Chunking.Chunks(gear, sz, files[i].data, 0));
      Chunking.ChunksJoin(gear, sz, files[i].data, 0);
    }
  }

  // ------------------------------------------------------------------------------ completeness

  /** Stored bytes that decompress to content of that name. */
  predicate GoodChunk(pr: Primitives, h: Digest, stored: Bytes) {
    pr.decompress(stored).Some? && pr.sha(pr.decompress(stored).value) == h
  }

  ghost predicate AllGood(pr: Primitives, files: map<Digest, Bytes>, hs: set<Digest>) {
    forall h :: h in hs ==> h in files && GoodChunk(pr, h, files[h])
  }

  /** Everything `p` leads to is in the flat origin. */
  ghost predicate CompleteFor(pr: Primitives, site: Site, p: VersionPointer) {
    && p.manifestHash in site.flatManifests
    && pr.sha(site.flatManifests[p.manifestHash]) == p.manifestHash
    && var m := pr.parseManifest(site.flatManifests[p.manifestHash]);
       m.Some? && AllGood(pr, site.flatChunks, Reachable(m.value))
  }

  /** What a consumer that fetches `latest` now can rely on. */
  ghost predicate Complete(pr: Primitives, site: Site) {
    site.latest.Some? ==>
      pr.parsePointer(site.latest.value).Some? && CompleteFor(pr, site, pr.parsePointer(site.latest.value).value)
  }

  datatype SiteAction =
    | StoreChunk(plain: Bytes)
    | StoreManifest(raw: Bytes)
    | FlatManifest(raw: Bytes)
    | HalfCopy(hash: Digest, part: Bytes)
    | FlatChunk(hash: Digest, stored: Bytes)
    | Announce(pointer: VersionPointer)

  /** What a build may do next; stopping after any step models a crash. */
  ghost predicate SiteEnabled(pr: Primitives, site: Site, act: SiteAction) {
    match act
    case StoreChunk(_) => true
    case StoreManifest(_) => true
    case FlatManifest(_) => true
    case HalfCopy(h, _) => h !in site.flatChunks
    case FlatChunk(h, stored) => GoodChunk(pr, h, stored)
    case Announce(p) => pr.parsePointer(WireBytes(p)) == Some(p) && CompleteFor(pr, site, p)
  }

  function SiteNext(pr: Primitives, site: Site, act: SiteAction): Site {
    match act
    case StoreChunk(plain) => site.(store := site.store[pr.sha(plain) := pr.compress(plain)])
    case StoreManifest(raw) => site.(manifests := site.manifests[pr.sha(raw) := raw])
    case FlatManifest(raw) => site.(flatManifests := site.flatManifests[pr.sha(raw) := raw])
    case HalfCopy(h, part) => site.(flatChunks := site.flatChunks[h := part])
    case FlatChunk(h, stored) => site.(flatChunks := site.flatChunks[h := stored])
    case Announce(p) => site.(latest := Some(WireBytes(p)))
  }

  ghost predicate SiteStep(pr: Primitives, a: Site, b: Site) {
    exists act :: SiteEnabled(pr, a, act) && b == SiteNext(pr, a, act)
  }

  /** `after` is `before` continued by steps of a build. */
  ghost predicate Builds(pr: Primitives, before: seq<Site>, after: seq<Site>) {
    && 0 < |before| <= |after| && after[..|before|] == before
    && forall i: nat :: |before| <= i < |after| ==> SiteStep(pr, after[i - 1], after[i])
  }

  lemma BuildsItself(pr: Primitives, run: seq<Site>)
    requires run != []
    ensures Builds(pr, run, run)
  {
  }

  lemma BuildsByStep(pr: Primitives, before: seq<Site>, after: seq<Site>, act: SiteAction)
    requires Builds(pr, before, after) && SiteEnabled(pr, after[|after| - 1], act)
    ensures Builds(pr, before, after + [SiteNext(pr, after[|after| - 1], act)])
  {
    var next := SiteNext(pr, after[|after| - 1], act);
    assert SiteStep(pr, after[|after| - 1], next);
    var more := after + [next];
    forall i: nat | |before| <= i < |more| ensures SiteStep(pr, more[i - 1], more[i]) {
      if i < |after| {
        assert SiteStep(pr, after[i - 1], after[i]);
      }
    }
  }

  lemma StepKeepsComplete(pr: Primitives, site: Site, act: SiteAction)
    requires pr.CollisionFree() && Complete(pr, site) && SiteEnabled(pr, site, act)
    ensures Complete(pr, SiteNext(pr, site, act))
  {
  }

  /** At every step of any build, finished or not, `latest` leads only to whole, valid data. */
  lemma {:induction false} NeverIncomplete(pr: Primitives, before: seq<Site>, after: seq<Site>, i: nat)
    requires pr.CollisionFree() && Builds(pr, before, after) && Complete(pr, before[|before| - 1])
    requires |before| - 1 <= i < |after|
    ensures Complete(pr, after[i])
  {
    if i == |before| - 1 {
      assert after[i] == after[..|before|][i];
    } else {
      NeverIncomplete(pr, before, after, i - 1);
      assert SiteStep(pr, after[i - 1], after[i]);
      var act :| SiteEnabled(pr, after[i - 1], act) && after[i] == SiteNext(pr, after[i - 1], act);
      StepKeepsComplete(pr, after[i - 1], act);
    }
  }

  /** Once complete, a release stays so: no later step of any build breaks what a consumer may be fetching. */
  lemma StepKeepsRelease(pr: Primitives, site: Site, act: SiteAction, p: VersionPointer)
    requires pr.CollisionFree() && CompleteFor(pr, site, p) && SiteEnabled(pr, site, act)
    ensures CompleteFor(pr, SiteNext(pr, site, act), p)
    ensures SiteNext(pr, site, act).flatManifests[p.manifestHash] == site.flatManifests[p.manifestHash]
  {
  }

  /** Over any run of builds. */
  lemma {:induction false} ReleaseStays(pr: Primitives, before: seq<Site>, after: seq<Site>, p: VersionPointer, i: nat)
    requires pr.CollisionFree() && Builds(pr, before, after) && CompleteFor(pr, before[|before| - 1], p)
    requires |before| - 1 <= i < |after|
    ensures CompleteFor(pr, after[i], p)
    ensures after[i].flatManifests[p.manifestHash] == before[|before| - 1].flatManifests[p.manifestHash]
  {
    if i == |before| - 1 {
      assert after[i] == after[..|before|][i];
    } else {
      ReleaseStays(pr, before, after, p, i - 1);
      assert SiteStep(pr, after[i - 1], after[i]);
      var act :| SiteEnabled(pr, after[i - 1], act) && after[i] == SiteNext(pr, after[i - 1], act);
      StepKeepsRelease(pr, after[i - 1], act, p);
    }
  }

  // ------------------------------------------------------------------------------- the round trip

  function Lookup(files: map<Digest, Bytes>): Digest -> Option<Bytes> {
    h => if h in files then Some(files[h]) else None
  }

  /** What a consumer fetches from the site. */
  function OriginOf(site: Site): Origin {
    Origin(site.latest, Lookup(site.flatManifests), Lookup(site.flatChunks))
  }

  /** The site announces the release of `files`, and is complete for it. */
  ghost predicate Announces(pr: Primitives, site: Site, p: VersionPointer, m: IndexManifest) {
    && site.latest.Some? && pr.parsePointer(site.latest.value) == Some(p)
    && CompleteFor(pr, site, p)
    && site.flatManifests[p.manifestHash] == ManifestBytes(m)
    && pr.parseManifest(ManifestBytes(m)) == Some(m)
  }

  lemma {:induction false} JoinedSnoc(front: seq<Bytes>, last: Bytes)
    ensures Chunking.Joined(front + [last]) == Chunking.Joined(front) + last
  {
    if front == [] {
      assert [last][1..] == [];
    } else {
      assert (front + [last])[1..] == front[1..] + [last];
      JoinedSnoc(front[1..], last);
    }
  }

  /** A store from which each chunk reads back yields the chunks joined. */
  lemma {:induction false} AssembleJoins(pr: Primitives, cap: nat, c: Cache, chunks: seq<Bytes>)
    requires forall i :: 0 <= i < |chunks| ==> GetChunk(pr, cap, c, pr.sha(chunks[i])) == Some(chunks[i])
    ensures Assemble(pr, cap, c, Refs(pr, chunks)) == Some(Chunking.Joined(chunks))
  {
    if chunks != [] {
      var n := |chunks| - 1;
      AssembleJoins(pr, cap, c, chunks[..n]);
      assert Refs(pr, chunks)[..n] == Refs(pr, chunks[..n]);
      assert chunks == chunks[..n] + [chunks[n]];
      JoinedSnoc(chunks[..n], chunks[n]);
    }
  }

  lemma RefNamesChunk(pr: Primitives, gear: Chunking.Gear, sz: Chunking.Sizes, files: seq<SourceFile>, l: Label,
        i: nat, j: nat)
    requires sz.max > 0 && i < |files| && j < |Chunking.Chunks(gear, sz, files[i].data, 0)|
    ensures pr.sha(Chunking.Chunks(gear, sz, files[i].data, 0)[j]) in Reachable(ReleaseOf(pr, gear, sz, files, l))
  {
    var m := ReleaseOf(pr, gear, sz, files, l);
    assert m.files[i] in m.files && m.files[i].chunks[j] in m.files[i].chunks;
  }

  /** A store of good chunks gives every file of the release back, byte for byte. */
  lemma ReleaseReads(pr: Primitives, caps: Caps, gear: Chunking.Gear, sz: Chunking.Sizes, files: seq<SourceFile>,
        l: Label, c: Cache, i: nat)
    requires pr.CollisionFree() && 0 < sz.max <= caps.chunkBytes && i < |files| && |files[i].data| <= caps.fileBytes
    requires AllGood(pr, c.chunks, Reachable(ReleaseOf(pr, gear, sz, files, l)))
    ensures Materialize(pr, caps, c, EntryOf(pr, gear, sz, files[i])) == Some(files[i].data)
  {
    var data := files[i].data;
    var chunks := Chunking.Chunks(gear, sz, data, 0);
    Chunking.ChunkSizes(gear, sz, data, 0);
    forall j | 0 <= j < |chunks| ensures GetChunk(pr, caps.chunkBytes, c, pr.sha(chunks[j])) == Some(chunks[j]) {
      RefNamesChunk(pr, gear, sz, files, l, i, j);
      assert GoodChunk(pr, pr.sha(chunks[j]), c.chunks[pr.sha(chunks[j])]);
    }
    AssembleJoins(pr, caps.chunkBytes, c, chunks);
    Chunking.ChunksJoin(gear, sz, data, 0);
    assert data[0..] == data;
  }

  /** A device with room for the files can take what a finished build announces. */
  lemma PublishedIsWhole(pr: Primitives, caps: Caps, gear: Chunking.Gear, sz: Chunking.Sizes, files: seq<SourceFile>,
        l: Label, site: Site, p: VersionPointer)
    requires pr.CollisionFree() && 0 < sz.max <= caps.chunkBytes
    requires forall i :: 0 <= i < |files| ==> |files[i].data| <= caps.fileBytes
    requires Announces(pr, site, p, ReleaseOf(pr, gear, sz, files, l))
    ensures WholeRelease(pr, caps, OriginOf(site), p, ReleaseOf(pr, gear, sz, files, l))
    ensures forall i :: 0 <= i < |files| ==>
              Materialize(pr, caps, OriginChunks(OriginOf(site), ReleaseOf(pr, gear, sz, files, l)), EntryOf(pr, gear, sz, files[i])) == Some(files[i].data)
  {
    var m := ReleaseOf(pr, gear, sz, files, l);
    var source := OriginChunks(OriginOf(site), m);
    assert AllGood(pr, source.chunks, Reachable(m));
    forall i | 0 <= i < |files|
      ensures Materialize(pr, caps, source, m.files[i]) == Some(files[i].data)
    {
      ReleaseReads(pr, caps, gear, sz, files, l, source, i);
    }
  }

  ghost predicate ManifestFrom(o: Origin, site: Site, h: Digest) {
    o.manifest(h) == Lookup(site.flatManifests)(h)
  }

  ghost predicate ChunkFrom(o: Origin, site: Site, h: Digest) {
    o.chunk(h) == Lookup(site.flatChunks)(h)
  }

  /** An object asked for at some instant of the run, as it was then. */
  ghost predicate AskedOnce(o: Origin, before: seq<Site>, after: seq<Site>, h: Digest)
    requires 0 < |before| <= |after|
  {
    && (exists i: nat :: |before| - 1 <= i < |after| && ManifestFrom(o, after[i], h))
    && (exists i: nat :: |before| - 1 <= i < |after| && ChunkFrom(o, after[i], h))
  }

  /** Answers fetched while builds go on: the pointer now, everything else at any later instants. */
  ghost predicate FetchedMeanwhile(o: Origin, before: seq<Site>, after: seq<Site>)
    requires 0 < |before| <= |after|
  {
    o.latest == before[|before| - 1].latest && forall h: Digest :: AskedOnce(o, before, after, h)
  }

  /**
    A sync that races any number of builds: fetching the pointer at one instant and each object at any
    later one, it is still served the whole release the pointer announced.
    */
  lemma RacingSyncIsWhole(pr: Primitives, caps: Caps, gear: Chunking.Gear, sz: Chunking.Sizes, files: seq<SourceFile>, l: Label,
                          before: seq<Site>, after: seq<Site>, p: VersionPointer, o: Origin)
    requires pr.CollisionFree() && 0 < sz.max <= caps.chunkBytes
    requires forall i :: 0 <= i < |files| ==> |files[i].data| <= caps.fileBytes
    requires 0 < |before| <= |after| && Builds(pr, before, after) && FetchedMeanwhile(o, before, after)
    requires Announces(pr, before[|before| - 1], p, ReleaseOf(pr, gear, sz, files, l))
    ensures WholeRelease(pr, caps, o, p, ReleaseOf(pr, gear, sz, files, l))
  {
    hide Builds, Materialize, EntryOf;
    var m := ReleaseOf(pr, gear, sz, files, l);
    var now := before[|before| - 1];
    assert AskedOnce(o, before, after, p.manifestHash);
    var t: nat :| |before| - 1 <= t < |after| && ManifestFrom(o, after[t], p.manifestHash);
    ReleaseStays(pr, before, after, p, t);
    assert FetchedManifest(pr, o, p) == Some(m);
    RacingChunksAreGood(pr, before, after, p, m, o);
    forall i | 0 <= i < |files| ensures Materialize(pr, caps, OriginChunks(o, m), m.files[i]).Some? {
      ReleaseReads(pr, caps, gear, sz, files, l, OriginChunks(o, m), i);
    }
  }

  lemma RacingChunksAreGood(pr: Primitives, before: seq<Site>, after: seq<Site>, p: VersionPointer, m: IndexManifest, o: Origin)
    requires pr.CollisionFree() && 0 < |before| <= |after| && Builds(pr, before, after) && FetchedMeanwhile(o, before, after)
    requires Announces(pr, before[|before| - 1], p, m)
    ensures AllGood(pr, Fetched(o, Reachable(m)), Reachable(m))
  {
    hide Builds, Reachable, GoodChunk, Announces;
    forall h | h in Reachable(m) ensures h in Fetched(o, Reachable(m)) && GoodChunk(pr, h, Fetched(o, Reachable(m))[h]) {
      RacingChunkIsGood(pr, before, after, p, m, o, h);
    }
  }

  lemma RacingChunkIsGood(pr: Primitives, before: seq<Site>, after: seq<Site>, p: VersionPointer, m: IndexManifest, o: Origin,
                          h: Digest)
    requires pr.CollisionFree() && 0 < |before| <= |after| && Builds(pr, before, after) && FetchedMeanwhile(o, before, after)
    requires Announces(pr, before[|before| - 1], p, m) && h in Reachable(m)
    ensures o.chunk(h).Some? && GoodChunk(pr, h, o.chunk(h).value)
  {
    hide Builds, Reachable, GoodChunk;
    assert AskedOnce(o, before, after, h);
    var t: nat :| |before| - 1 <= t < |after| && ChunkFrom(o, after[t], h);
    ReleaseStays(pr, before, after, p, t);
  }

  /** What a device needs to take the announced release: trust, room, and no bad chunk file of its own. */
  ghost predicate DeviceReady<V(!new)>(pr: Primitives, caps: Caps, s: Scheme<V>, cfg: Config, o: Origin, p: VersionPointer,
        m: IndexManifest, c: Cache) {
    && Vouched(cfg, p) && Admissible(cfg, p, m) && MayActivate(pr, s, c, p)
    && (Missing(m, c) == {} || Total(o, Missing(m, c)) <= cfg.totalBytes)
    && (forall h :: h in Reachable(m) && h in c.chunks ==> ValidChunk(pr, caps.chunkBytes, h, c.chunks[h]))
  }

  lemma SyncedReads(pr: Primitives, caps: Caps, gear: Chunking.Gear, sz: Chunking.Sizes, files: seq<SourceFile>,
        l: Label, o: Origin, p: VersionPointer, c: Cache, i: nat)
    requires pr.CollisionFree() && sz.max > 0 && i < |files|
    requires WholeRelease(pr, caps, o, p, ReleaseOf(pr, gear, sz, files, l))
    requires Materialize(pr, caps, OriginChunks(o, ReleaseOf(pr, gear, sz, files, l)), EntryOf(pr, gear, sz, files[i])) ==
             Some(files[i].data)
    requires forall i, j :: 0 <= i < j < |files| ==> files[i].path != files[j].path
    requires forall h :: h in Reachable(ReleaseOf(pr, gear, sz, files, l)) && h in c.chunks ==>
               ValidChunk(pr, caps.chunkBytes, h, c.chunks[h])
    ensures MaterializeFile(pr, caps, Synced(pr, o, c), ReleaseOf(pr, gear, sz, files, l), files[i].path) ==
            Some(files[i].data)
  {
    var m := ReleaseOf(pr, gear, sz, files, l);
    FilledReads(pr, caps, o, p, m, c);
    EntryIsFirst(m.files, i);
    var e := EntryOf(pr, gear, sz, files[i]);
    assert m.files[i] == e && e in m.files;
    AssembleKept(pr, caps.chunkBytes, Filled(o, p, m, c), Synced(pr, o, c), e.chunks);
  }

  /**
    Publish, sync, read: whatever the files were, a device that is ready for the announced release
    accepts it, every path then reads back the original bytes, each distinct chunk was fetched or
    reused, and a second sync fetches nothing.
    */
  lemma RoundTrip<V(!new)>(pr: Primitives, caps: Caps, s: Scheme<V>, cfg: Config, gear: Chunking.Gear, sz: Chunking.Sizes,
                           files: seq<SourceFile>, l: Label, site: Site, p: VersionPointer, c: Cache)
    requires pr.CollisionFree() && pr.Reserializes() && 0 < sz.max <= caps.chunkBytes
    requires forall i :: 0 <= i < |files| ==> |files[i].data| <= caps.fileBytes
    requires forall i, j :: 0 <= i < j < |files| ==> files[i].path != files[j].path
    requires Announces(pr, site, p, ReleaseOf(pr, gear, sz, files, l))
    requires DeviceReady(pr, caps, s, cfg, OriginOf(site), p, ReleaseOf(pr, gear, sz, files, l), c)
    ensures Acceptable(pr, caps, s, cfg, OriginOf(site), c)
    ensures ActiveManifest(pr, Synced(pr, OriginOf(site), c)) == Some(ReleaseOf(pr, gear, sz, files, l))
    ensures forall i :: 0 <= i < |files| ==>
              MaterializeFile(pr, caps, Synced(pr, OriginOf(site), c), ReleaseOf(pr, gear, sz, files, l), files[i].path) == Some(files[i].data)
    ensures Report(pr, OriginOf(site), c).fetched + Report(pr, OriginOf(site), c).reused ==
            |Reachable(ReleaseOf(pr, gear, sz, files, l))|
    ensures Report(pr, OriginOf(site), Synced(pr, OriginOf(site), c)).fetched == 0
  {
    hide Acceptable, Announces, OriginOf, ReleaseOf, EntryOf, Materialize, MaterializeFile, ActiveManifest,
          Reachable, Missing, Total, OriginChunks;
    var o, m := OriginOf(site), ReleaseOf(pr, gear, sz, files, l);
    PublishedIsWhole(pr, caps, gear, sz, files, l, site, p);
    HonestSyncExactlyWhen(pr, caps, s, cfg, o, c, p, m);
    SyncedServes(pr, caps, s, cfg, o, c);
    CountsAddUp(m, c);
    ResyncFetchesNothing(pr, caps, s, cfg, cfg.now, o, c);
    forall i | 0 <= i < |files|
      ensures MaterializeFile(pr, caps, Synced(pr, o, c), m, files[i].path) == Some(files[i].data)
    {
      SyncedReads(pr, caps, gear, sz, files, l, o, p, c, i);
    }
  }

  /** A release signed by a held, unrevoked key passes the consumer's signature check. */
  lemma PublishedVerifies(cfg: Config, pr: Primitives, sign: Bytes -> string, m: IndexManifest, l: Label,
        key: Keyring.KeyringEntry)
    requires Keyring.ValidRing(cfg.ed, cfg.ring) && key in cfg.ring.keys && !cfg.ring.IsRevoked(key.keyId)
    requires l.keyId.None? || l.keyId == Some(key.keyId)
    requires forall data :: cfg.ed.verifies(key.publicKey, data, sign(data))
    ensures SignatureVerdict(cfg, PointerTo(pr, sign, m, l)).Verified?
  {
    var p := PointerTo(pr, sign, m, l);
    PointerCarries(pr, sign, m, l);
    assert cfg.ed.verifies(key.publicKey, SigningBytes(p), p.signature);
    Keyring.AcceptedExactlyWhen(cfg.ed, cfg.ring, SigningBytes(p), p.signature, p.keyId);
  }

  /**
    Editing a file: a device that holds the chunks of `x` lacks, of the edited `y`, only chunks between
    the last boundary inside the shared prefix and the first boundary of the shared suffix.
    */
  lemma EditFetchesOnlyBetween(pr: Primitives, gear: Chunking.Gear, sz: Chunking.Sizes, x: Bytes, y: Bytes, p: nat,
        t: nat, b: nat, path: string, held: set<Digest>)
    requires sz.max > 0
    requires p <= |x| && p <= |y| && x[..p] == y[..p]
    requires t <= |x| && t <= |y| && x[|x| - t..] == y[|y| - t..]
    requires b < p && Chunking.Reaches(gear, sz, x, 0, b)
    requires Chunking.Reaches(gear, sz, x, 0, |x| - t) && Chunking.Reaches(gear, sz, y, b, |y| - t)
    requires forall r :: r in EntryOf(pr, gear, sz, SourceFile(path, x)).chunks ==> r.hash in held
    ensures forall r :: r in EntryOf(pr, gear, sz, SourceFile(path, y)).chunks && r.hash !in held ==>
              exists chunk :: chunk in Chunking.Between(gear, sz, y, b, |y| - t) && r == ChunkRef(pr.sha(chunk), |chunk|)
  {
    Chunking.EditLocality(gear, sz, x, y, p, t, b);
    var xs, ys := Chunking.Chunks(gear, sz, x, 0), Chunking.Chunks(gear, sz, y, 0);
    hide Chunking.Chunks, Chunking.Between, Chunking.Reaches;
    forall r | r in Refs(pr, ys) && r.hash !in held
      ensures exists chunk :: chunk in Chunking.Between(gear, sz, y, b, |y| - t) && r == ChunkRef(pr.sha(chunk), |chunk|)
    {
      var i :| 0 <= i < |ys| && r == ChunkRef(pr.sha(ys[i]), |ys[i]|);
      HeldRefs(pr, xs, held);
      assert ys[i] in ys && ys[i] !in xs;
    }
  }

  lemma HeldRefs(pr: Primitives, chunks: seq<Bytes>, held: set<Digest>)
    requires forall r :: r in Refs(pr, chunks) ==> r.hash in held
    ensures forall chunk :: chunk in chunks ==> pr.sha(chunk) in held
  {
    forall i | 0 <= i < |chunks| ensures pr.sha(chunks[i]) in held {
      assert Refs(pr, chunks)[i] in Refs(pr, chunks);
    }
  }

  // ------------------------------------------------------------------------------------ the build

  /** Only the store changed, and no good chunk of it was lost. */
  ghost predicate StoreGrew(pr: Primitives, a: Site, b: Site) {
    && b == a.(store := b.store)
    && forall h :: h in a.store && GoodChunk(pr, h, a.store[h]) ==> h in b.store && GoodChunk(pr, h, b.store[h])
  }

  function Hashes(refs: seq<ChunkRef>): set<Digest> {
    set r | r in refs :: r.hash
  }

  /** A producer at its site; `trail` is every state the site has been in. */
  class Publisher {
    const pr: Primitives
    const cap: nat
    const gear: Chunking.Gear
    const sz: Chunking.Sizes
    var site: Site
    ghost var trail: seq<Site>

    ghost predicate Valid()
      reads this
    {
      trail != [] && trail[|trail| - 1] == site && sz.max > 0 && pr.Decompresses()
    }

    constructor (pr: Primitives, cap: nat, gear: Chunking.Gear, sz: Chunking.Sizes, site: Site)
      requires sz.max > 0 && pr.Decompresses()
      ensures Valid() && this.pr == pr && this.cap == cap && this.gear == gear && this.sz == sz
      ensures this.site == site && trail == [site]
    {
      this.pr, this.cap, this.gear, this.sz, this.site, this.trail := pr, cap, gear, sz, site, [site];
    }

    /** One atomic replace, or one write of the fallback copy. */
    method Do(act: SiteAction, ghost before: seq<Site>)
      requires Valid() && Builds(pr, before, trail) && SiteEnabled(pr, site, act)
      modifies this
      ensures Valid() && Builds(pr, before, trail) && site == SiteNext(pr, old(site), act)
    {
      BuildsByStep(pr, before, trail, act);
      hide Builds, SiteEnabled;
      site := SiteNext(pr, site, act);
      trail := trail + [site];
    }

    /** `put_chunk`: keep a stored chunk that reads back as `plain`, replace anything else. */
    method PutChunk(plain: Bytes, ghost before: seq<Site>) returns (h: Digest)
      requires Valid() && Builds(pr, before, trail)
      modifies this
      ensures Valid() && Builds(pr, before, trail) && StoreGrew(pr, old(site), site)
      ensures h == pr.sha(plain) && h in site.store && pr.decompress(site.store[h]) == Some(plain)
      ensures h in old(site).store && Inflate(pr, cap, old(site).store[h]) == Some(plain) ==> site == old(site)
    {
      hide Builds;
      h := pr.sha(plain);
      if h in site.store && ValidChunk(pr, cap, h, site.store[h]) && Inflate(pr, cap, site.store[h]) == Some(plain) {
        return;
      }
      Do(StoreChunk(plain), before);
    }

    /** `_file_entry`. */
    method StoreFile(f: SourceFile, ghost before: seq<Site>) returns (e: FileEntry)
      requires Valid() && Builds(pr, before, trail)
      modifies this
      ensures Valid() && Builds(pr, before, trail) && StoreGrew(pr, old(site), site)
      ensures e == EntryOf(pr, gear, sz, f) && AllGood(pr, site.store, Hashes(e.chunks))
    {
      hide Builds, Chunking.Chunks;
      var chunks := Chunking.Chunk(gear, sz, f.data);
      var refs: seq<ChunkRef> := [];
      for i := 0 to |chunks|
        invariant Valid() && Builds(pr, before, trail) && StoreGrew(pr, old(site), site)
        invariant refs == Refs(pr, chunks[..i]) && AllGood(pr, site.store, Hashes(refs))
      {
        var h := PutChunk(chunks[i], before);
        refs := refs + [ChunkRef(h, |chunks[i]|)];
        assert refs == Refs(pr, chunks[..i + 1]);
        assert Hashes(refs) == Hashes(Refs(pr, chunks[..i])) + {h};
      }
      assert chunks[..|chunks|] == chunks;
      e := FileEntry(f.path, None, |f.data|, pr.sha(f.data), refs);
    }

    method StoreFiles(files: seq<SourceFile>, l: Label, ghost before: seq<Site>) returns (m: IndexManifest)
      requires Valid() && Builds(pr, before, trail)
      modifies this
      ensures Valid() && Builds(pr, before, trail) && StoreGrew(pr, old(site), site)
      ensures m == ReleaseOf(pr, gear, sz, files, l) && AllGood(pr, site.store, Reachable(m))
    {
      hide Builds, EntryOf;
      var entries: seq<FileEntry> := [];
      for i := 0 to |files|
        invariant Valid() && Builds(pr, before, trail) && StoreGrew(pr, old(site), site)
        invariant |entries| == i
        invariant forall j :: 0 <= j < i ==> entries[j] == EntryOf(pr, gear, sz, files[j])
        invariant forall j :: 0 <= j < i ==> AllGood(pr, site.store, Hashes(entries[j].chunks))
      {
        var e := StoreFile(files[i], before);
        entries := entries + [e];
      }
      m := IndexManifest(2, l.bundleId, l.version, entries, []);
      forall h | h in Reachable(m) ensures h in site.store && GoodChunk(pr, h, site.store[h]) {
        var e, r :| e in m.files && r in e.chunks && r.hash == h;
        assert h in Hashes(e.chunks);
      }
    }

    /** `_publish_chunk`: link or copy a new name, rewrite one whose bytes differ. */
    method PublishChunk(h: Digest, ghost before: seq<Site>)
      requires Valid() && Builds(pr, before, trail) && h in site.store && GoodChunk(pr, h, site.store[h])
      modifies this
      ensures Valid() && Builds(pr, before, trail)
      ensures site == old(site).(flatChunks := old(site).flatChunks[h := old(site).store[h]])
    {
      hide Builds, GoodChunk;
      var source := site.store[h];
      if h !in site.flatChunks {
        if * {
          var written :| 0 <= written <= |source|;
          Do(HalfCopy(h, source[..written]), before);
        }
        Do(FlatChunk(h, source), before);
      } else if site.flatChunks[h] != source {
        Do(FlatChunk(h, source), before);
      }
    }

    method PublishChunks(hs: set<Digest>, ghost before: seq<Site>)
      requires Valid() && Builds(pr, before, trail) && AllGood(pr, site.store, hs)
      modifies this
      ensures Valid() && Builds(pr, before, trail)
      ensures site == old(site).(flatChunks := site.flatChunks)
      ensures AllGood(pr, site.flatChunks, hs)
      ensures forall h :: h in hs ==> site.flatChunks[h] == site.store[h]
      ensures forall h :: h in old(site).flatChunks && h !in hs ==>
                h in site.flatChunks && site.flatChunks[h] == old(site).flatChunks[h]
    {
      hide Builds;
      var pending := hs;
      while pending != {}
        invariant Valid() && Builds(pr, before, trail) && pending <= hs
        invariant site == old(site).(flatChunks := site.flatChunks)
        invariant forall h :: h in hs - pending ==> h in site.flatChunks && site.flatChunks[h] == site.store[h]
        invariant forall h :: h in old(site).flatChunks && h !in hs ==>
                h in site.flatChunks && site.flatChunks[h] == old(site).flatChunks[h]
        decreases pending
      {
        var h :| h in pending;
        PublishChunk(h, before);
        pending := pending - {h};
      }
    }

    /**
      `_build_bundle_locked`: from any site, however damaged, the finished build announces the whole
      release; and it is a run of steps, so until then `latest` leads where it led.
      */
    method BuildLocked(files: seq<SourceFile>, l: Label, sign: Bytes -> string) returns (p: VersionPointer)
      requires Valid()
      requires var m := ReleaseOf(pr, gear, sz, files, l);
               && pr.parseManifest(ManifestBytes(m)) == Some(m)
               && pr.parsePointer(WireBytes(PointerTo(pr, sign, m, l))) == Some(PointerTo(pr, sign, m, l))
      modifies this
      ensures Valid() && Builds(pr, old(trail), trail)
      ensures p == PointerTo(pr, sign, ReleaseOf(pr, gear, sz, files, l), l)
      ensures p.manifestHash == pr.sha(ManifestBytes(ReleaseOf(pr, gear, sz, files, l))) && p.version == l.version
      ensures p.bundleId == (if l.bindIdentity then Some(l.bundleId) else None) && p.channel == l.channel
      ensures p.sequence == l.sequence && p.keyId == l.keyId && p.expiresAt == l.expiresAt
      ensures p.signature == sign(SigningBytes(p)) && site.latest == Some(WireBytes(p))
      ensures Announces(pr, site, p, ReleaseOf(pr, gear, sz, files, l))
      ensures pr.CollisionFree() && Complete(pr, old(site)) ==>
                forall i :: |old(trail)| - 1 <= i < |trail| ==> Complete(pr, trail[i])
      ensures forall h :: h in old(site).flatChunks && h !in Reachable(ReleaseOf(pr, gear, sz, files, l)) ==>
                h in site.flatChunks && site.flatChunks[h] == old(site).flatChunks[h]
    {
      BuildsItself(pr, trail);
      PointerCarries(pr, sign, ReleaseOf(pr, gear, sz, files, l), l);
      hide Builds, Complete, ReleaseOf, Reachable, GoodChunk, AllGood, ManifestBytes, WireBytes, SigningBytes, PointerTo;
      var m := StoreFiles(files, l, old(trail));
      Do(StoreManifest(ManifestBytes(m)), old(trail));
      p := PointerTo(pr, sign, m, l);
      LayOut(m, p, old(trail));
      if pr.CollisionFree() && Complete(pr, old(site)) {
        forall i | |old(trail)| - 1 <= i < |trail| ensures Complete(pr, trail[i]) {
          NeverIncomplete(pr, old(trail), trail, i);
        }
      }
    }

    /** `_lay_out_origin`: the manifest, every chunk it names, and the pointer last. */
    method LayOut(m: IndexManifest, p: VersionPointer, ghost before: seq<Site>)
      requires Valid() && Builds(pr, before, trail) && AllGood(pr, site.store, Reachable(m))
      requires p.manifestHash == pr.sha(ManifestBytes(m))
      requires pr.parseManifest(ManifestBytes(m)) == Some(m) && pr.parsePointer(WireBytes(p)) == Some(p)
      modifies this
      ensures Valid() && Builds(pr, before, trail) && Announces(pr, site, p, m)
      ensures site.latest == Some(WireBytes(p))
      ensures forall h :: h in old(site).flatChunks && h !in Reachable(m) ==>
                h in site.flatChunks && site.flatChunks[h] == old(site).flatChunks[h]
    {
      hide Builds, Reachable, AllGood, ManifestBytes, WireBytes;
      Do(FlatManifest(ManifestBytes(m)), before);
      PublishChunks(Reachable(m), before);
      Do(Announce(p), before);
    }
  }
}
