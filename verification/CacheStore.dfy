/**
  The content-addressed store of a device: chunk files, manifest files and the active pointer.  Every
  write is one step; the invariant is that what the active pointer reaches can be read back.
  */
module CacheStore {
  import opened Common
  import opened Manifest
  import opened Freshness

  // SHA-256, zstd, and the parsers of the two documents.
  datatype Primitives = Primitives(
    sha: Bytes -> Digest,
    compress: Bytes -> Bytes,
    decompress: Bytes -> Option<Bytes>,
    parseManifest: Bytes -> Option<IndexManifest>,
    parsePointer: Bytes -> Option<VersionPointer>)
  {
    ghost predicate CollisionFree() {
      forall a: Bytes, b: Bytes :: sha(a) == sha(b) ==> a == b
    }

    ghost predicate Decompresses() {
      forall a: Bytes :: decompress(compress(a)) == Some(a)
    }

    /** Whatever was parsed as a pointer is written back in a form that parses to it again. */
    ghost predicate Reserializes() {
      forall b: Bytes :: parsePointer(b).Some? ==> parsePointer(WireBytes(parsePointer(b).value)) == parsePointer(b)
    }
  }

  datatype Cache = Cache(chunks: map<Digest, Bytes>, manifests: map<Digest, Bytes>, active: Option<Bytes>)

  // Ceilings: one inflated chunk, one materialized file.
  datatype Caps = Caps(chunkBytes: nat, fileBytes: nat)

  // ------------------------------------------------------------------------------------- reading

  /** `_decompress`: nothing beyond the ceiling. */
  function Inflate(pr: Primitives, cap: nat, stored: Bytes): Option<Bytes> {
    match pr.decompress(stored)
    case None => None
    case Some(plain) => if |plain| > cap then None else Some(plain)
  }

  /** Do the stored bytes inflate to content that hashes to `h`? */
  predicate ValidChunk(pr: Primitives, cap: nat, h: Digest, stored: Bytes) {
    Inflate(pr, cap, stored).Some? && pr.sha(Inflate(pr, cap, stored).value) == h
  }

  /** `get_chunk`. */
  function GetChunk(pr: Primitives, cap: nat, c: Cache, h: Digest): Option<Bytes> {
    if h in c.chunks && ValidChunk(pr, cap, h, c.chunks[h]) then Inflate(pr, cap, c.chunks[h]) else None
  }

  /** `get_manifest`. */
  function GetManifest(pr: Primitives, c: Cache, h: Digest): Option<Bytes> {
    if h in c.manifests && pr.sha(c.manifests[h]) == h then Some(c.manifests[h]) else None
  }

  /** The chunks of a file joined, or None when one cannot be read. */
  function Assemble(pr: Primitives, cap: nat, c: Cache, refs: seq<ChunkRef>): Option<Bytes> {
    if refs == [] then Some([])
    else
      var n := |refs| - 1;
      match (Assemble(pr, cap, c, refs[..n]), GetChunk(pr, cap, c, refs[n].hash))
      case (Some(front), Some(chunk)) => Some(front + chunk)
      case _ => None
  }

  /** `materialize_file` for one entry. */
  function Materialize(pr: Primitives, caps: Caps, c: Cache, e: FileEntry): Option<Bytes> {
    if e.size > caps.fileBytes then None
    else match Assemble(pr, caps.chunkBytes, c, e.chunks)
      case None => None
      case Some(blob) => if |blob| == e.size && pr.sha(blob) == e.fileSha256 then Some(blob) else None
  }

  /** The distinct chunks a manifest names. */
  function Reachable(m: IndexManifest): set<Digest> {
    set e, r | e in m.files && r in e.chunks :: r.hash
  }

  /** The manifest an active pointer names, as far as it can be read. */
  function ActiveManifest(pr: Primitives, c: Cache): Option<IndexManifest> {
    if c.active.None? || pr.parsePointer(c.active.value).None? then None
    else match GetManifest(pr, c, pr.parsePointer(c.active.value).value.manifestHash)
      case None => None
      case Some(raw) => pr.parseManifest(raw)
  }

  /** What reading checks: the ceiling and the name of a chunk, the name of a manifest. */
  lemma ReadsExactlyWhen(pr: Primitives, cap: nat, c: Cache, h: Digest, plain: Bytes)
    ensures GetChunk(pr, cap, c, h) == Some(plain) <==>
              h in c.chunks && pr.decompress(c.chunks[h]) == Some(plain) && |plain| <= cap && pr.sha(plain) == h
    ensures GetManifest(pr, c, h) == Some(plain) <==> h in c.manifests && c.manifests[h] == plain && pr.sha(plain) == h
  {
  }

  function Concatenated(parts: seq<Bytes>): Bytes {
    if parts == [] then [] else Concatenated(parts[..|parts| - 1]) + parts[|parts| - 1]
  }

  /** `parts` are the contents of the chunks that `refs` name, in order, each under its own hash. */
  ghost predicate AreChunks(pr: Primitives, cap: nat, c: Cache, refs: seq<ChunkRef>, parts: seq<Bytes>) {
    && |parts| == |refs|
    && forall i :: 0 <= i < |refs| ==>
         && refs[i].hash in c.chunks && pr.decompress(c.chunks[refs[i].hash]) == Some(parts[i])
         && |parts[i]| <= cap && pr.sha(parts[i]) == refs[i].hash
  }

  lemma {:induction false} AssembledFromChunks(pr: Primitives, cap: nat, c: Cache, refs: seq<ChunkRef>, blob: Bytes)
    returns (parts: seq<Bytes>)
    requires Assemble(pr, cap, c, refs) == Some(blob)
    ensures AreChunks(pr, cap, c, refs, parts) && blob == Concatenated(parts)
  {
    if refs == [] {
      parts := [];
    } else {
      var n := |refs| - 1;
      var last := GetChunk(pr, cap, c, refs[n].hash).value;
      var front := AssembledFromChunks(pr, cap, c, refs[..n], Assemble(pr, cap, c, refs[..n]).value);
      ReadsExactlyWhen(pr, cap, c, refs[n].hash, last);
      hide ValidChunk, GetChunk;
      parts := front + [last];
      assert parts[..n] == front;
    }
  }

  lemma {:induction false} ChunksAssemble(pr: Primitives, cap: nat, c: Cache, refs: seq<ChunkRef>, parts: seq<Bytes>)
    requires AreChunks(pr, cap, c, refs, parts)
    ensures Assemble(pr, cap, c, refs) == Some(Concatenated(parts))
  {
    if refs != [] {
      var n := |refs| - 1;
      ChunksAssemble(pr, cap, c, refs[..n], parts[..n]);
      ReadsExactlyWhen(pr, cap, c, refs[n].hash, parts[n]);
    }
  }

  /**
    A file reads as `blob` exactly when it is within the ceiling, of the recorded size and hash, and
    the concatenation of chunks that are each within their ceiling and named by their own hash.
    */
  lemma MaterializesExactlyWhen(pr: Primitives, caps: Caps, c: Cache, e: FileEntry, blob: Bytes)
    ensures Materialize(pr, caps, c, e) == Some(blob) <==>
              && e.size <= caps.fileBytes && |blob| == e.size && pr.sha(blob) == e.fileSha256
              && exists parts :: AreChunks(pr, caps.chunkBytes, c, e.chunks, parts) && blob == Concatenated(parts)
  {
    hide AreChunks, Concatenated, Assemble;
    if Materialize(pr, caps, c, e) == Some(blob) {
      var _ := AssembledFromChunks(pr, caps.chunkBytes, c, e.chunks, blob);
    }
    forall parts | AreChunks(pr, caps.chunkBytes, c, e.chunks, parts) && blob == Concatenated(parts)
      ensures Assemble(pr, caps.chunkBytes, c, e.chunks) == Some(blob)
    {
      ChunksAssemble(pr, caps.chunkBytes, c, e.chunks, parts);
    }
  }

  // ---------------------------------------------------------------------------------- the invariant

  ghost predicate AllMaterialize(pr: Primitives, caps: Caps, c: Cache, m: IndexManifest) {
    forall i :: 0 <= i < |m.files| ==> Materialize(pr, caps, c, m.files[i]).Some?
  }

  /** If anything is active, its manifest is readable and every file of it materializes. */
  ghost predicate Serves(pr: Primitives, caps: Caps, c: Cache) {
    c.active.Some? ==>
      ActiveManifest(pr, c).Some? && AllMaterialize(pr, caps, c, ActiveManifest(pr, c).value)
  }

  /** `b` has `a`'s active pointer, and of what it reaches everything that `a` could read. */
  ghost predicate Retains(pr: Primitives, caps: Caps, a: Cache, b: Cache) {
    && b.active == a.active
    && (ActiveManifest(pr, a).Some? ==>
          && ActiveManifest(pr, b) == ActiveManifest(pr, a)
          && forall h :: h in Reachable(ActiveManifest(pr, a).value) && GetChunk(pr, caps.chunkBytes, a, h).Some? ==>
               GetChunk(pr, caps.chunkBytes, b, h) == GetChunk(pr, caps.chunkBytes, a, h))
  }

  lemma {:induction false} AssembleKept(pr: Primitives, cap: nat, a: Cache, b: Cache, refs: seq<ChunkRef>)
    requires forall r :: r in refs && GetChunk(pr, cap, a, r.hash).Some? ==>
               GetChunk(pr, cap, b, r.hash) == GetChunk(pr, cap, a, r.hash)
    ensures Assemble(pr, cap, a, refs).Some? ==> Assemble(pr, cap, b, refs) == Assemble(pr, cap, a, refs)
  {
    if refs != [] {
      var n := |refs| - 1;
      AssembleKept(pr, cap, a, b, refs[..n]);
      assert refs[n] in refs;
    }
  }

  /** A file can be assembled exactly when each of its chunks can be read. */
  lemma {:induction false} AssembleReadsAll(pr: Primitives, cap: nat, c: Cache, refs: seq<ChunkRef>)
    ensures Assemble(pr, cap, c, refs).Some? <==> forall r :: r in refs ==> GetChunk(pr, cap, c, r.hash).Some?
  {
    if refs != [] {
      var n := |refs| - 1;
      AssembleReadsAll(pr, cap, c, refs[..n]);
      assert forall r :: r in refs <==> r in refs[..n] || r == refs[n];
    }
  }

  /** What serves holds every chunk it names. */
  lemma MaterializedIsHeld(pr: Primitives, caps: Caps, c: Cache, m: IndexManifest)
    requires AllMaterialize(pr, caps, c, m)
    ensures forall h :: h in Reachable(m) ==> GetChunk(pr, caps.chunkBytes, c, h).Some?
  {
    forall e, r | e in m.files && r in e.chunks ensures GetChunk(pr, caps.chunkBytes, c, r.hash).Some? {
      var i :| 0 <= i < |m.files| && m.files[i] == e;
      assert Materialize(pr, caps, c, m.files[i]).Some?;
      AssembleReadsAll(pr, caps.chunkBytes, c, e.chunks);
    }
  }

  /** What could be read through the active pointer still can, to the same bytes. */
  lemma RetainedFilesRead(pr: Primitives, caps: Caps, a: Cache, b: Cache)
    requires Retains(pr, caps, a, b) && ActiveManifest(pr, a).Some?
    ensures forall e :: e in ActiveManifest(pr, a).value.files && Materialize(pr, caps, a, e).Some? ==>
              Materialize(pr, caps, b, e) == Materialize(pr, caps, a, e)
  {
    var m := ActiveManifest(pr, a).value;
    forall e | e in m.files && Materialize(pr, caps, a, e).Some?
      ensures Materialize(pr, caps, b, e) == Materialize(pr, caps, a, e)
    {
      assert forall r :: r in e.chunks ==> r.hash in Reachable(m);
      AssembleKept(pr, caps.chunkBytes, a, b, e.chunks);
    }
  }

  lemma RetainedServes(pr: Primitives, caps: Caps, a: Cache, b: Cache)
    requires Serves(pr, caps, a) && Retains(pr, caps, a, b)
    ensures Serves(pr, caps, b)
  {
    if a.active.Some? {
      RetainedFilesRead(pr, caps, a, b);
      var m := ActiveManifest(pr, a).value;
      forall i | 0 <= i < |m.files| ensures Materialize(pr, caps, b, m.files[i]).Some? {
        assert Materialize(pr, caps, a, m.files[i]).Some? && m.files[i] in m.files;
      }
    }
  }

  // ------------------------------------------------------------------------------------- the steps

  datatype CacheAction =
    | WriteManifest(raw: Bytes)
    | WriteMissingChunk(hash: Digest, stored: Bytes)
    | RemoveBadChunk(hash: Digest)
    | SweepChunk(hash: Digest)
    | SweepManifest(hash: Digest)
    | Activate(pointer: VersionPointer)

  function ActivePointer(pr: Primitives, c: Cache): Option<VersionPointer> {
    if c.active.None? then None else pr.parsePointer(c.active.value)
  }

  /** The rollback guard: nothing active yet, or a readable active pointer that the new one may replace. */
  predicate MayActivate<V(!new)>(pr: Primitives, s: Scheme<V>, c: Cache, p: VersionPointer) {
    c.active.Some? ==> ActivePointer(pr, c).Some? && Accepted(s, p, ActivePointer(pr, c).value)
  }

  /** The manifest `p` names is held and every file of it can be read. */
  ghost predicate Ready(pr: Primitives, caps: Caps, c: Cache, p: VersionPointer) {
    && GetManifest(pr, c, p.manifestHash).Some?
    && var parsed := pr.parseManifest(GetManifest(pr, c, p.manifestHash).value);
       parsed.Some? && AllMaterialize(pr, caps, c, parsed.value)
  }

  /** What a sync or a collection may do next.  Stopping after any step models a crash. */
  ghost predicate CacheEnabled<V(!new)>(pr: Primitives, caps: Caps, s: Scheme<V>, c: Cache, act: CacheAction) {
    match act
    case WriteManifest(_) => true
    case WriteMissingChunk(h, _) => h !in c.chunks
    case RemoveBadChunk(h) => h in c.chunks && !ValidChunk(pr, caps.chunkBytes, h, c.chunks[h])
    case SweepChunk(h) => ActiveManifest(pr, c).Some? && h !in Reachable(ActiveManifest(pr, c).value)
    case SweepManifest(h) => ActivePointer(pr, c).Some? && h != ActivePointer(pr, c).value.manifestHash
    case Activate(p) => pr.parsePointer(WireBytes(p)) == Some(p) && Ready(pr, caps, c, p) && MayActivate(pr, s, c, p)
  }

  function CacheNext(pr: Primitives, c: Cache, act: CacheAction): Cache {
    match act
    case WriteManifest(raw) => c.(manifests := c.manifests[pr.sha(raw) := raw])
    case WriteMissingChunk(h, stored) => c.(chunks := c.chunks[h := stored])
    case RemoveBadChunk(h) => c.(chunks := c.chunks - {h})
    case SweepChunk(h) => c.(chunks := c.chunks - {h})
    case SweepManifest(h) => c.(manifests := c.manifests - {h})
    case Activate(p) => c.(active := Some(WireBytes(p)))
  }

  ghost predicate StepsTo<V(!new)>(pr: Primitives, caps: Caps, s: Scheme<V>, a: Cache, b: Cache) {
    exists act :: CacheEnabled(pr, caps, s, a, act) && b == CacheNext(pr, a, act)
  }

  ghost predicate StepsAt<V(!new)>(pr: Primitives, caps: Caps, s: Scheme<V>, run: seq<Cache>, i: nat)
    requires i + 1 < |run|
  {
    StepsTo(pr, caps, s, run[i], run[i + 1])
  }

  /** Any interleaving of syncs, finished or not, and collections. */
  ghost predicate CacheRun<V(!new)>(pr: Primitives, caps: Caps, s: Scheme<V>, run: seq<Cache>) {
    run != [] && forall i: nat :: i + 1 < |run| ==> StepsAt(pr, caps, s, run, i)
  }

  /** `after` is `before` continued by steps. */
  ghost predicate Continues<V(!new)>(pr: Primitives, caps: Caps, s: Scheme<V>, before: seq<Cache>, after: seq<Cache>) {
    && 0 < |before| <= |after| && after[..|before|] == before
    && forall i: nat :: |before| <= i + 1 < |after| ==> StepsAt(pr, caps, s, after, i)
  }

  lemma ContinuesByStep<V(!new)>(pr: Primitives, caps: Caps, s: Scheme<V>, before: seq<Cache>, after: seq<Cache>,
        act: CacheAction)
    requires Continues(pr, caps, s, before, after) && CacheEnabled(pr, caps, s, after[|after| - 1], act)
    ensures Continues(pr, caps, s, before, after + [CacheNext(pr, after[|after| - 1], act)])
  {
    var more := after + [CacheNext(pr, after[|after| - 1], act)];
    forall i: nat | |before| <= i + 1 < |more| ensures StepsAt(pr, caps, s, more, i) {
      if i + 1 < |after| {
        assert StepsAt(pr, caps, s, after, i);
      } else {
        assert StepsTo(pr, caps, s, more[i], more[i + 1]);
      }
    }
  }

  lemma ContinuesItself<V(!new)>(pr: Primitives, caps: Caps, s: Scheme<V>, run: seq<Cache>)
    requires run != []
    ensures Continues(pr, caps, s, run, run)
  {
  }

  lemma ContinuesOn<V(!new)>(pr: Primitives, caps: Caps, s: Scheme<V>, a: seq<Cache>, b: seq<Cache>, c: seq<Cache>)
    requires Continues(pr, caps, s, a, b) && Continues(pr, caps, s, b, c)
    ensures Continues(pr, caps, s, a, c)
  {
    assert c[..|a|] == b[..|a|];
    forall i: nat | |a| <= i + 1 < |c| ensures StepsAt(pr, caps, s, c, i) {
      if i + 1 < |b| {
        assert StepsAt(pr, caps, s, b, i);
        assert c[i] == c[..|b|][i] && c[i + 1] == c[..|b|][i + 1];
      }
    }
  }

  /** A run of calls, each continuing the trail, is a run of the store. */
  lemma ContinuedRun<V(!new)>(pr: Primitives, caps: Caps, s: Scheme<V>, before: seq<Cache>, after: seq<Cache>)
    requires CacheRun(pr, caps, s, before) && Continues(pr, caps, s, before, after)
    ensures CacheRun(pr, caps, s, after)
  {
    forall i: nat | i + 1 < |after| ensures StepsAt(pr, caps, s, after, i) {
      if i + 1 < |before| {
        assert StepsAt(pr, caps, s, before, i);
        assert after[i] == after[..|before|][i] && after[i + 1] == after[..|before|][i + 1];
      }
    }
  }

  /** Every step but an activation leaves all that the active pointer reaches readable. */
  lemma StepRetains<V(!new)>(pr: Primitives, caps: Caps, s: Scheme<V>, c: Cache, act: CacheAction)
    requires pr.CollisionFree() && CacheEnabled(pr, caps, s, c, act) && !act.Activate?
    ensures Retains(pr, caps, c, CacheNext(pr, c, act))
  {
  }

  lemma StepServes<V(!new)>(pr: Primitives, caps: Caps, s: Scheme<V>, c: Cache, act: CacheAction)
    requires pr.CollisionFree() && Serves(pr, caps, c) && CacheEnabled(pr, caps, s, c, act)
    ensures Serves(pr, caps, CacheNext(pr, c, act))
  {
    var next := CacheNext(pr, c, act);
    if act.Activate? {
      var m := ActiveManifest(pr, next).value;
      forall i | 0 <= i < |m.files| ensures Materialize(pr, caps, next, m.files[i]).Some? {
        assert Materialize(pr, caps, c, m.files[i]).Some?;
        AssembleKept(pr, caps.chunkBytes, c, next, m.files[i].chunks);
      }
    } else {
      StepRetains(pr, caps, s, c, act);
      RetainedServes(pr, caps, c, next);
    }
  }

  /**
    Whatever syncs and collections do, in whatever order and wherever they stop: a store that serves
    its active pointer, such as an empty one, always does.
    */
  lemma {:induction false} ServesForever<V(!new)>(pr: Primitives, caps: Caps, s: Scheme<V>, run: seq<Cache>, i: nat)
    requires pr.CollisionFree() && CacheRun(pr, caps, s, run) && Serves(pr, caps, run[0]) && i < |run|
    ensures Serves(pr, caps, run[i])
  {
    if i > 0 {
      ServesForever(pr, caps, s, run, i - 1);
      assert StepsAt(pr, caps, s, run, i - 1);
      var act :| CacheEnabled(pr, caps, s, run[i - 1], act) && run[i] == CacheNext(pr, run[i - 1], act);
      StepServes(pr, caps, s, run[i - 1], act);
    }
  }

  /** The same for the states one call adds to a trail. */
  lemma CallServes<V(!new)>(pr: Primitives, caps: Caps, s: Scheme<V>, before: seq<Cache>, after: seq<Cache>, i: nat)
    requires pr.CollisionFree() && Continues(pr, caps, s, before, after)
    requires Serves(pr, caps, before[|before| - 1]) && |before| - 1 <= i < |after|
    ensures Serves(pr, caps, after[i])
  {
    var from := |before| - 1;
    var run := after[from..];
    assert run[0] == after[..|before|][from];
    forall j: nat | j + 1 < |run| ensures StepsAt(pr, caps, s, run, j) {
      assert StepsAt(pr, caps, s, after, from + j);
    }
    ServesForever(pr, caps, s, run, i - from);
  }

  /** The active pointer of a run only climbs, and never disappears. */
  lemma {:induction false} ActiveClimbs<V(!new)>(pr: Primitives, caps: Caps, s: Scheme<V>, run: seq<Cache>, i: nat, j: nat)
    requires s.IsOrder() && CacheRun(pr, caps, s, run) && i <= j < |run| && ActivePointer(pr, run[i]).Some?
    ensures ActivePointer(pr, run[j]).Some?
    ensures var a, b := ActivePointer(pr, run[i]).value, ActivePointer(pr, run[j]).value;
            b == a || Above(s, b, a)
    decreases j - i
  {
    if i < j {
      ActiveClimbs(pr, caps, s, run, i, j - 1);
      assert StepsAt(pr, caps, s, run, j - 1);
      var a, b, c := ActivePointer(pr, run[i]).value, ActivePointer(pr, run[j - 1]).value, ActivePointer(pr, run[j]);
      if c != Some(b) {
        AcceptedClimbs(s, c.value, b);
        if b != a {
          AboveTransitive(s, a, b, c.value);
        }
      }
    }
  }

  /** No interleaving brings a replaced pointer back: a signed but superseded `latest` cannot be replayed. */
  lemma NoReplay<V(!new)>(pr: Primitives, caps: Caps, s: Scheme<V>, run: seq<Cache>, i: nat, j: nat, k: nat)
    requires s.IsOrder() && CacheRun(pr, caps, s, run) && i <= j <= k < |run| && ActivePointer(pr, run[i]).Some?
    requires ActivePointer(pr, run[j]) != ActivePointer(pr, run[i])
    ensures ActivePointer(pr, run[k]) != ActivePointer(pr, run[i])
  {
    ActiveClimbs(pr, caps, s, run, i, j);
    ActiveClimbs(pr, caps, s, run, j, k);
    var a, b := ActivePointer(pr, run[i]).value, ActivePointer(pr, run[j]).value;
    if ActivePointer(pr, run[k]) == Some(a) {
      AboveTransitive(s, a, b, a);
      AboveIrreflexive(s, a);
    }
  }

  // -------------------------------------------------------------------------------- the collection

  datatype IntegrityError =
    | BadChunk | BadManifest | ActiveUnreadable | NotCanonical | Rollback

  /** What `gc` needs of the active pointer: it reads, and so does its manifest, in canonical form. */
  predicate Collectable(pr: Primitives, c: Cache) {
    && ActiveManifest(pr, c).Some?
    && pr.sha(ManifestBytes(ActiveManifest(pr, c).value)) == ActivePointer(pr, c).value.manifestHash
  }

  function Only(files: map<Digest, Bytes>, keep: set<Digest>): map<Digest, Bytes> {
    map h | h in files && h in keep :: files[h]
  }

  lemma OnlyKept(files: map<Digest, Bytes>, keep: set<Digest>)
    ensures Without(files, files.Keys - keep) == Only(files, keep)
  {
  }

  lemma OnlyOne(files: map<Digest, Bytes>, h: Digest)
    requires h in files
    ensures Only(files, {h}) == map[h := files[h]]
  {
  }

  /** All that a collection keeps. */
  function Collected(pr: Primitives, c: Cache): Cache
    requires ActiveManifest(pr, c).Some?
  {
    c.(chunks := Only(c.chunks, Reachable(ActiveManifest(pr, c).value)),
       manifests := Only(c.manifests, {ActivePointer(pr, c).value.manifestHash}))
  }

  /** A collection of a store that serves leaves exactly the chunks the active manifest names. */
  lemma CollectedExactly(pr: Primitives, caps: Caps, c: Cache)
    requires Serves(pr, caps, c) && c.active.Some?
    ensures Collected(pr, c).chunks.Keys == Reachable(ActiveManifest(pr, c).value)
    ensures Collected(pr, c).manifests.Keys == {ActivePointer(pr, c).value.manifestHash}
    ensures Serves(pr, caps, Collected(pr, c))
    ensures Retains(pr, caps, c, Collected(pr, c))
  {
    MaterializedIsHeld(pr, caps, c, ActiveManifest(pr, c).value);
    RetainedServes(pr, caps, c, Collected(pr, c));
  }

  /** How many files of `before` are gone from `after`. */
  function Lost(before: map<Digest, Bytes>, after: map<Digest, Bytes>): nat {
    |before.Keys - after.Keys|
  }

  /** `files` with `gone` removed. */
  function Without(files: map<Digest, Bytes>, gone: set<Digest>): map<Digest, Bytes> {
    files - gone
  }

  lemma NoneGone(files: map<Digest, Bytes>)
    ensures Without(files, {}) == files && Lost(files, files) == 0
  {
  }

  lemma OneMoreGone(files: map<Digest, Bytes>, gone: set<Digest>, h: Digest)
    requires gone <= files.Keys && h in files.Keys - gone
    ensures Without(files, gone) - {h} == Without(files, gone + {h})
    ensures Lost(files, Without(files, gone + {h})) == Lost(files, Without(files, gone)) + 1
  {
    assert files.Keys - (files - gone).Keys == gone;
    assert files.Keys - (files - (gone + {h})).Keys == gone + {h};
  }

  /** Of the chunk files named in `keep`, `b` has those of `a`, unchanged - valid or not. */
  ghost predicate KeepsChunks(keep: set<Digest>, a: Cache, b: Cache) {
    forall h :: h in keep && h in a.chunks ==> h in b.chunks && b.chunks[h] == a.chunks[h]
  }

  /** So do all of `states` from index `from` on. */
  ghost predicate AllKeep(keep: set<Digest>, a: Cache, states: seq<Cache>, from: nat) {
    forall i :: from <= i < |states| ==> KeepsChunks(keep, a, states[i])
  }

  lemma WithoutKeeps(keep: set<Digest>, a: Cache, gone: set<Digest>)
    requires gone !! keep
    ensures KeepsChunks(keep, a, a.(chunks := Without(a.chunks, gone)))
  {
  }

  lemma KeepsItself(keep: set<Digest>, run: seq<Cache>)
    requires run != []
    ensures AllKeep(keep, run[|run| - 1], run, |run| - 1)
  {
  }

  lemma AllKeepMore(keep: set<Digest>, a: Cache, states: seq<Cache>, from: nat, next: Cache)
    requires AllKeep(keep, a, states, from) && KeepsChunks(keep, a, next)
    ensures AllKeep(keep, a, states + [next], from)
  {
    hide KeepsChunks;
  }

  /** The active manifest is fit for a collection and does not name the chunk. */
  predicate Clears(pr: Primitives, c: Cache, h: Digest) {
    Collectable(pr, c) && h !in Reachable(ActiveManifest(pr, c).value)
  }

  /** Chunk files go only if a collection of `a` would clear them. */
  ghost predicate OnlyCollects(pr: Primitives, a: Cache, b: Cache) {
    forall h :: h in a.chunks && !Clears(pr, a, h) ==> h in b.chunks && b.chunks[h] == a.chunks[h]
  }

  lemma KeptOnlyCollects(pr: Primitives, a: Cache, states: seq<Cache>, from: nat)
    requires Collectable(pr, a) && AllKeep(Reachable(ActiveManifest(pr, a).value), a, states, from)
    ensures forall i :: from <= i < |states| ==> OnlyCollects(pr, a, states[i])
  {
    hide Reachable, ActiveManifest;
    forall i | from <= i < |states| ensures OnlyCollects(pr, a, states[i]) {
      assert KeepsChunks(Reachable(ActiveManifest(pr, a).value), a, states[i]);
    }
  }

  /** Manifest sweeps after chunk sweeps keep what the chunk sweeps kept. */
  lemma KeptThrough(keep: set<Digest>, a: Cache, swept: seq<Cache>, all: seq<Cache>, from: nat)
    requires swept != [] && swept <= all && AllKeep(keep, a, swept, from) && from < |swept|
    requires forall i :: |swept| - 1 <= i < |all| ==> all[i].chunks == swept[|swept| - 1].chunks
    ensures AllKeep(keep, a, all, from)
  {
    forall i | from <= i < |all| ensures KeepsChunks(keep, a, all[i]) {
      if i < |swept| {
        assert KeepsChunks(keep, a, swept[i]);
      } else {
        assert KeepsChunks(keep, a, swept[|swept| - 1]);
      }
    }
  }

  /** The filesystem store; `trail` is every state its files have been in, one write apart. */
  class FilesystemCacheStore<V(!new)> {
    const pr: Primitives
    const caps: Caps
    const scheme: Scheme<V>
    var cache: Cache
    ghost var trail: seq<Cache>

    ghost predicate Valid()
      reads this
    {
      trail != [] && trail[|trail| - 1] == cache
    }

    constructor (pr: Primitives, caps: Caps, scheme: Scheme<V>, cache: Cache)
      ensures Valid() && this.pr == pr && this.caps == caps && this.scheme == scheme
      ensures this.cache == cache && trail == [cache]
    {
      this.pr, this.caps, this.scheme, this.cache, this.trail := pr, caps, scheme, cache, [cache];
    }

    /** One atomic replace or unlink. */
    method Become(next: Cache)
      requires Valid()
      modifies this
      ensures Valid() && cache == next && trail == old(trail) + [next]
    {
      cache := next;
      trail := trail + [next];
    }

    /** `put_chunk_compressed`: write, then verify or remove.  Between the two the name may hold anything. */
    method PutChunkCompressed(h: Digest, stored: Bytes) returns (ok: bool)
      requires Valid()
      modifies this
      ensures Valid()
      ensures ok <==> ValidChunk(pr, caps.chunkBytes, h, stored)
      ensures ok ==> GetChunk(pr, caps.chunkBytes, cache, h) == pr.decompress(stored)
      ensures var written := old(cache).(chunks := old(cache).chunks[h := stored]);
              && cache == (if ok then written else old(cache).(chunks := old(cache).chunks - {h}))
              && trail == old(trail) + [written] + (if ok then [] else [cache])
    {
      Become(cache.(chunks := cache.chunks[h := stored]));
      var plain := Inflate(pr, caps.chunkBytes, cache.chunks[h]);
      ok := plain.Some? && pr.sha(plain.value) == h;
      if !ok {
        Become(cache.(chunks := cache.chunks - {h}));
        assert cache.chunks == old(cache).chunks - {h};
      }
    }

    /** `put_manifest`. */
    method PutManifest(raw: Bytes) returns (h: Digest)
      requires Valid()
      modifies this
      ensures Valid() && h == pr.sha(raw) && GetManifest(pr, cache, h) == Some(raw)
      ensures cache == old(cache).(manifests := old(cache).manifests[h := raw])
      ensures trail == old(trail) + [cache]
    {
      h := pr.sha(raw);
      Become(cache.(manifests := cache.manifests[h := raw]));
    }

    /** `read_active`: None only when nothing was ever promoted; an unreadable pointer is refused. */
    method ReadActive() returns (r: Result<Option<VersionPointer>, IntegrityError>)
      ensures r == if cache.active.None? then Ok(None)
                   else if ActivePointer(pr, cache).None? then Err(ActiveUnreadable)
                   else Ok(ActivePointer(pr, cache))
    {
      if cache.active.None? {
        return Ok(None);
      }
      var parsed := pr.parsePointer(cache.active.value);
      return if parsed.None? then Err(ActiveUnreadable) else Ok(parsed);
    }

    /** `promote`. */
    method Promote(p: VersionPointer) returns (ok: bool)
      requires Valid()
      modifies this
      ensures Valid()
      ensures ok <==> MayActivate(pr, scheme, old(cache), p)
      ensures cache == (if ok then old(cache).(active := Some(WireBytes(p))) else old(cache))
      ensures trail == old(trail) + (if ok then [cache] else [])
      ensures ok && old(cache).active.Some? ==>
                && pr.parsePointer(old(cache).active.value).Some?
                && var active := pr.parsePointer(old(cache).active.value).value;
                   || p == active
                   || (p.sequence.Some? && active.sequence.Some? && p.sequence.value > active.sequence.value)
                   || (active.sequence.None? && scheme.parse(p.version).Some? && scheme.parse(active.version).Some?
                       && scheme.less(scheme.parse(active.version).value, scheme.parse(p.version).value))
    {
      var active := ReadActive();
      match active {
        case Err(_) =>
          return false;
        case Ok(None) =>
        case Ok(Some(current)) =>
          var reason := DowngradeReason(scheme, p, current);
          if reason.Some? {
            return false;
          }
      }
      Become(cache.(active := Some(WireBytes(p))));
      return true;
    }

    /**
      `gc`: with nothing promoted it does nothing; otherwise it keeps exactly the active manifest and
      the chunks it names, or refuses and removes nothing.  Every unlink on the way is a step, and at
      none of them is a chunk file gone that the active manifest names.
      */
    method Gc() returns (r: Result<nat, IntegrityError>)
      requires Valid()
      modifies this
      ensures Valid() && Continues(pr, caps, scheme, old(trail), trail)
      ensures r.Ok? <==> old(cache).active.None? || Collectable(pr, old(cache))
      ensures r.Err? || old(cache).active.None? ==> cache == old(cache)
      ensures r.Ok? && old(cache).active.None? ==> r.value == 0
      ensures r.Ok? && old(cache).active.Some? ==>
                && cache == Collected(pr, old(cache))
                && r.value == Lost(old(cache).chunks, cache.chunks) + Lost(old(cache).manifests, cache.manifests)
      ensures r.Ok? && old(cache).active.Some? ==>
                && ActivePointer(pr, old(cache)).Some? && ActiveManifest(pr, old(cache)).Some?
                && var hash := ActivePointer(pr, old(cache)).value.manifestHash;
                   && pr.sha(ManifestBytes(ActiveManifest(pr, old(cache)).value)) == hash
                   && cache.manifests == map[hash := old(cache).manifests[hash]]
      ensures old(trail) <= trail
      ensures forall i :: |old(trail)| - 1 <= i < |trail| ==> OnlyCollects(pr, old(cache), trail[i])
    {
      hide Continues, Reachable, Lost, Without, Only, AllKeep;
      ContinuesItself(pr, caps, scheme, trail);
      var active := ReadActive();
      if active.Err? {
        return Err(ActiveUnreadable);
      }
      if active.value.None? {
        return Ok(0);
      }
      var raw := GetManifest(pr, cache, active.value.value.manifestHash);
      if raw.None? || pr.parseManifest(raw.value).None? {
        return Err(BadManifest);
      }
      var m := pr.parseManifest(raw.value).value;
      if pr.sha(ManifestBytes(m)) != active.value.value.manifestHash {
        return Err(NotCanonical);
      }
      var chunks := SweepChunks(m);
      ghost var swept := trail;
      var manifests := SweepManifests(active.value.value);
      ContinuesOn(pr, caps, scheme, old(trail), swept, trail);
      KeptThrough(Reachable(m), old(cache), swept, trail, |old(trail)| - 1);
      KeptOnlyCollects(pr, old(cache), trail, |old(trail)| - 1);
      r := Ok(chunks + manifests);
      OnlyKept(old(cache).chunks, Reachable(m));
      OnlyKept(old(cache).manifests, {active.value.value.manifestHash});
      OnlyOne(old(cache).manifests, active.value.value.manifestHash);
    }

    /** One sweep step. */
    method Sweep(act: CacheAction, ghost before: seq<Cache>)
      requires Valid() && Continues(pr, caps, scheme, before, trail) && CacheEnabled(pr, caps, scheme, cache, act)
      requires act.SweepChunk? || act.SweepManifest?
      modifies this
      ensures Valid() && Continues(pr, caps, scheme, before, trail) && cache == CacheNext(pr, old(cache), act)
      ensures ActivePointer(pr, cache) == ActivePointer(pr, old(cache))
      ensures act.SweepChunk? ==> ActiveManifest(pr, cache) == ActiveManifest(pr, old(cache))
      ensures trail == old(trail) + [cache]
    {
      ContinuesByStep(pr, caps, scheme, before, trail, act);
      hide Continues, StepsTo;
      Become(CacheNext(pr, cache, act));
    }

    method SweepChunks(m: IndexManifest) returns (removed: nat)
      requires Valid() && ActiveManifest(pr, cache) == Some(m)
      modifies this
      ensures Valid() && Continues(pr, caps, scheme, old(trail), trail)
      ensures ActivePointer(pr, cache) == ActivePointer(pr, old(cache))
      ensures cache == old(cache).(chunks := Without(old(cache).chunks, old(cache).chunks.Keys - Reachable(m)))
      ensures removed == Lost(old(cache).chunks, cache.chunks)
      ensures old(trail) <= trail && AllKeep(Reachable(m), old(cache), trail, |old(trail)| - 1)
    {
      hide Continues, ActiveManifest, ActivePointer, Reachable, Lost, Without, AllKeep, KeepsChunks;
      ContinuesItself(pr, caps, scheme, trail);
      var doomed := cache.chunks.Keys - Reachable(m);
      var gone: set<Digest> := {};
      removed := 0;
      NoneGone(cache.chunks);
      KeepsItself(Reachable(m), trail);
      while doomed - gone != {}
        invariant Valid() && Continues(pr, caps, scheme, old(trail), trail)
        invariant ActivePointer(pr, cache) == ActivePointer(pr, old(cache)) && ActiveManifest(pr, cache) == Some(m)
        invariant gone <= doomed && removed == Lost(old(cache).chunks, cache.chunks)
        invariant cache == old(cache).(chunks := Without(old(cache).chunks, gone))
        invariant old(trail) <= trail && AllKeep(Reachable(m), old(cache), trail, |old(trail)| - 1)
        decreases doomed - gone
      {
        var h :| h in doomed - gone;
        OneMoreGone(old(cache).chunks, gone, h);
        ghost var states := trail;
        Sweep(SweepChunk(h), old(trail));
        gone := gone + {h};
        WithoutKeeps(Reachable(m), old(cache), gone);
        AllKeepMore(Reachable(m), old(cache), states, |old(trail)| - 1, cache);
        removed := removed + 1;
      }
      assert gone == doomed by {
        assert forall h :: h in doomed && h !in gone ==> h in doomed - gone;
      }
    }

    method SweepManifests(p: VersionPointer) returns (removed: nat)
      requires Valid() && ActivePointer(pr, cache) == Some(p)
      modifies this
      ensures Valid() && Continues(pr, caps, scheme, old(trail), trail)
      ensures cache == old(cache).(manifests := Without(old(cache).manifests, old(cache).manifests.Keys - {p.manifestHash}))
      ensures removed == Lost(old(cache).manifests, cache.manifests)
      ensures old(trail) <= trail
      ensures forall i :: |old(trail)| - 1 <= i < |trail| ==> trail[i].chunks == old(cache).chunks
    {
      hide Continues, ActivePointer, Lost, Without;
      ContinuesItself(pr, caps, scheme, trail);
      var doomed := cache.manifests.Keys - {p.manifestHash};
      var gone: set<Digest> := {};
      removed := 0;
      NoneGone(cache.manifests);
      while doomed - gone != {}
        invariant Valid() && Continues(pr, caps, scheme, old(trail), trail)
        invariant ActivePointer(pr, cache) == Some(p)
        invariant gone <= doomed && removed == Lost(old(cache).manifests, cache.manifests)
        invariant cache == old(cache).(manifests := Without(old(cache).manifests, gone))
        invariant old(trail) <= trail
        invariant forall i :: |old(trail)| - 1 <= i < |trail| ==> trail[i].chunks == old(cache).chunks
        decreases doomed - gone
      {
        var h :| h in doomed - gone;
        OneMoreGone(old(cache).manifests, gone, h);
        Sweep(SweepManifest(h), old(trail));
        gone := gone + {h};
        removed := removed + 1;
      }
      assert gone == doomed by {
        assert forall h :: h in doomed && h !in gone ==> h in doomed - gone;
      }
    }
  }
}
