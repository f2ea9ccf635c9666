/**
  The vector index and the snapshot store together: what `save` commits is what every later load
  returns, whatever a power failure loses in between.
  */
module PersistedIndex {
  import opened Common
  import opened SnapshotProtocol
  import opened SnapshotDurability
  import opened LegacyMigration
  import Catalogue = VectorCatalogue
  import Vectors = VectorIndex
  import Store = SnapshotStore

  // FAISS's file format and the sidecar's JSON.
  datatype FileFormats = FileFormats(
    writeIndex: Vectors.FaissFile -> Bytes, readIndex: Bytes -> Option<Vectors.FaissFile>,
    writeState: Vectors.Sidecar -> Bytes, readState: Bytes -> Option<Vectors.Sidecar>)
  {
    ghost predicate Lossless() {
      && (forall f: Vectors.FaissFile :: f.WellFormed() ==> readIndex(writeIndex(f)) == Some(f))
      && (forall side: Vectors.Sidecar :: readState(writeState(side)) == Some(side))
      && (forall b: Bytes :: readIndex(b).Some? ==> readIndex(b).value.WellFormed())
    }
  }

  /** `_read_snapshot` or `_read_legacy`, then `_validate_persisted_index` and `_restore`. */
  function ReadIndex(f: FileFormats, index: Bytes, state: Bytes): Option<Catalogue.Index> {
    match (f.readIndex(index), f.readState(state))
    case (Some(file), Some(side)) => if Vectors.Validates(file, side) then Some(Vectors.Restored(file, side)) else None
    case _ => None
  }

  /** What `save` writes. */
  function WriteIndex(f: FileFormats, ix: Catalogue.Index): (Bytes, Bytes) {
    (f.writeIndex(Vectors.SavedFile(ix)), f.writeState(Vectors.SavedSidecar(ix)))
  }

  function CodecOf(f: FileFormats): IndexCodec<Catalogue.Index> {
    IndexCodec((index, state) => ReadIndex(f, index, state), ix => WriteIndex(f, ix))
  }

  lemma SavedReads(f: FileFormats, ix: Catalogue.Index)
    requires f.Lossless() && Catalogue.Consistent(ix)
    ensures CodecOf(f).Rewrites(ix)
  {
    hide Catalogue.Consistent, Vectors.Validates, Vectors.Restored;
    Vectors.SaveThenLoad(ix);
  }

  lemma ReadIsConsistent(f: FileFormats, index: Bytes, state: Bytes)
    requires f.Lossless() && ReadIndex(f, index, state).Some?
    ensures Catalogue.Consistent(ReadIndex(f, index, state).value)
  {
    hide Catalogue.Consistent, Vectors.Validates, Vectors.Restored;
    Vectors.RestoredIsConsistent(f.readIndex(index).value, f.readState(state).value);
  }

  /** So the formats make an index codec: whatever was read can be written and read back. */
  lemma CodecIsFaithful(f: FileFormats)
    requires f.Lossless()
    ensures CodecOf(f).Faithful()
  {
    hide ReadIndex, FileFormats.Lossless, Catalogue.Consistent;
    forall index: Bytes, state: Bytes | ReadIndex(f, index, state).Some?
      ensures CodecOf(f).Rewrites(ReadIndex(f, index, state).value)
    {
      ReadIsConsistent(f, index, state);
      SavedReads(f, ReadIndex(f, index, state).value);
    }
  }

  /** The machine's last published generation is a durable save of `ix`. */
  ghost predicate Saved(f: FileFormats, m: Machine, ix: Catalogue.Index) {
    && Catalogue.Consistent(ix)
    && 0 < m.synced == |m.log|
    && (m.log[|m.log| - 1].payload.index, m.log[|m.log| - 1].payload.state) == WriteIndex(f, ix)
  }

  /**
    Save, power failure, load.  In any state of any run of the system whose last generation is a
    durable save of `ix`, every image a power failure can leave loads exactly `ix` and nothing else.
    */
  lemma SaveSurvivesPowerFailure(k: Codec, f: FileFormats, run: seq<Machine>, i: nat, ix: Catalogue.Index, image: Dir)
    requires f.Lossless() && CrashyRun(k, run) && i < |run| && IsStart(k, run[0])
    requires Saved(f, run[i], ix) && Image(run[i].durable, run[i].pending, image)
    ensures forall w: Catalogue.Index :: Loads(k, CodecOf(f), image, w) <==> w == ix
  {
    hide Inv, Catalogue.Consistent, ReadIndex, WriteIndex, FileFormats.Lossless, Image;
    CrashAtomicityFromStart(k, run, i, image);
    SavedReads(f, ix);
    NewestLoads(k, f, image, run[i].log, ix);
  }

  lemma NewestLoads(k: Codec, f: FileFormats, d: Dir, log: seq<Entry>, ix: Catalogue.Index)
    requires log != [] && Newest(k, d, log[|log| - 1].payload) && CodecOf(f).Rewrites(ix)
    requires (log[|log| - 1].payload.index, log[|log| - 1].payload.state) == WriteIndex(f, ix)
    ensures forall w: Catalogue.Index :: Loads(k, CodecOf(f), d, w) <==> w == ix
  {
    assert Shows(k, d, log, |log|);
    LoadedValue(k, CodecOf(f), d, log);
    hide Newest, Loads, ReadIndex;
    assert EntryReads(CodecOf(f), log[|log| - 1], ix);
  }

  // -------------------------------------------------------------------------------- the two calls

  datatype OpenError = NotLoaded(cause: LoadError) | Refused(reason: Vectors.IndexError)

  /** An index with the directory it is kept in, and the revision it was loaded from or last saved as. */
  class PersistentIndex {
    const store: Store.SnapshotStore
    const formats: FileFormats
    const index: Vectors.FaissVectorIndex
    var revision: Option<Revision>

    constructor (store: Store.SnapshotStore, formats: FileFormats, index: Vectors.FaissVectorIndex, revision: Option<Revision>)
      ensures this.store == store && this.formats == formats && this.index == index && this.revision == revision
    {
      this.store, this.formats, this.index, this.revision := store, formats, index, revision;
    }

    ghost predicate Valid()
      reads this, store, index
    {
      store.Valid() && store.phase.Idle? && index.Valid() && formats.Lossless()
    }

    /**
      `save`: commit both files against the revision loaded, and adopt the new one.  Once it returns, the
      index is durable; a save against a revision that is no longer the newest is refused and changes
      nothing.
      */
    method Save(generation: Generation, tempId: string) returns (r: Result<Revision, Store.CommitError>)
      requires Valid() && generation !in store.used && IsGeneration(generation)
      modifies this, store
      ensures Valid() && old(store.hist) <= store.hist
      ensures r.Ok? ==> store.log != [] && revision == Some(r.value) && r.value == store.log[|store.log| - 1].payload.revision
      ensures r.Ok? ==> store.log[..|store.log| - 1] == old(store.log) && Saved(formats, store.State(), index.State())
      ensures r.Ok? ==> store.log[|store.log| - 1].base == old(revision)
      ensures r.Err? ==> revision == old(revision)
      ensures r == Err(Store.Conflict) <==>
                old(revision).Some? && old(store.log) != [] && old(revision).value != old(store.log)[|old(store.log)| - 1].payload.revision
      ensures r.Err? && !r.error.IoFailure? ==> store.hist == old(store.hist)
    {
      hide Inv, Catalogue.Consistent, Newest;
      var files := WriteIndex(formats, index.State());
      r := store.Commit(files.0, files.1, revision, generation, tempId);
      if r.Ok? {
        revision := Some(r.value);
      }
    }
  }

  /**
    `load`: the newest snapshot or the migrated legacy pair, validated and restored.  The index opened
    is the one the directory held; a directory that holds none is refused and left alone, and one whose
    index has an unsupported configuration is refused.
    */
  method Open(store: Store.SnapshotStore, formats: FileFormats, score: Catalogue.Score, defaults: Catalogue.Config,
              generation: Generation, tempId: string)
    returns (r: Result<PersistentIndex, OpenError>)
    requires store.Valid() && store.phase.Idle? && formats.Lossless()
    requires generation !in store.used && IsGeneration(generation)
    modifies store
    ensures store.Valid() && store.phase.Idle? && old(store.hist) <= store.hist
    ensures r.Ok? ==> fresh(r.value) && r.value.Valid() && r.value.store == store && r.value.formats == formats
    ensures old(store.log) != [] ==> store.State() == old(store.State())
    ensures r.Ok? ==> store.log != [] && r.value.revision == Some(store.log[|store.log| - 1].payload.revision)
    ensures forall ix: Catalogue.Index :: old(Loads(store.codec, CodecOf(formats), store.Files(), ix)) ==>
              && (r.Ok? ==> r.value.index.State() == ix)
              && (old(store.log) != [] && Catalogue.Honoured(ix.config, defaults) ==> r.Ok?)
    ensures r.Ok? ==> forall ix: Catalogue.Index :: ix == r.value.index.State() ==>
              old(Loads(store.codec, CodecOf(formats), store.Files(), ix))
    ensures r.Ok? && (old(store.log) == [] || old(store.synced) == |old(store.log)|) ==>
              AllImagesLoad(store.codec, CodecOf(formats), store.State(), r.value.index.State())
    ensures r.Err? && r.error.NotLoaded? && !r.error.cause.CommitFailed? && !r.error.cause.UnlinkFailed? ==>
              && store.hist == old(store.hist)
              && forall ix: Catalogue.Index :: !Loads(store.codec, CodecOf(formats), store.Files(), ix)
    ensures r.Err? && r.error.Refused? ==>
              forall ix: Catalogue.Index :: old(Loads(store.codec, CodecOf(formats), store.Files(), ix)) ==>
                !Catalogue.Honoured(ix.config, defaults)
  {
    hide Inv, Catalogue.Consistent, Loads, AllImagesLoad, Newest, ReadIndex, WriteIndex, Vectors.Validates, Vectors.Restored,
      IndexCodec.Faithful;
    CodecIsFaithful(formats);
    ghost var before := store.State();
    assert store.Files() == before.Dir();
    var directory := new IndexDirectory(store, CodecOf(formats));
    assert store.Files() == before.Dir();
    var loaded := directory.LoadWritable(generation, tempId);
    if loaded.Err? {
      return Err(NotLoaded(loaded.error));
    }
    var ix := loaded.value.0;
    assert Loads(store.codec, CodecOf(formats), before.Dir(), ix);
    LoadedIsConsistent(formats, before, store.codec, ix);
    Vectors.SaveThenLoad(ix);
    var built := Vectors.Load(score, defaults, Vectors.SavedFile(ix), Vectors.SavedSidecar(ix));
    if built.Err? {
      return Err(Refused(built.error));
    }
    var index := new PersistentIndex(store, formats, built.value, Some(loaded.value.1));
    return Ok(index);
  }

  lemma LoadedIsConsistent(f: FileFormats, m: Machine, k: Codec, ix: Catalogue.Index)
    requires f.Lossless() && Loads(k, CodecOf(f), m.Dir(), ix)
    ensures Catalogue.Consistent(ix)
  {
    hide Catalogue.Consistent, ReadIndex;
    if p: Payload :| Newest(k, m.Dir(), p) && ReadIndex(f, p.index, p.state) == Some(ix) {
      ReadIsConsistent(f, p.index, p.state);
    } else {
      ReadIsConsistent(f, m.Dir()[LegacyIndex], m.Dir()[LegacyState]);
    }
  }

  /** The two put together: whatever image a power failure makes of a durable save, opening it gives the index back. */
  method Recover(k: Codec, ghost before: Machine, image: Dir, formats: FileFormats, score: Catalogue.Score,
                 defaults: Catalogue.Config, ghost ix: Catalogue.Index, generation: Generation, tempId: string)
    returns (recovered: PersistentIndex)
    requires Inv(k, before) && formats.Lossless() && Saved(formats, before, ix) && Catalogue.Honoured(ix.config, defaults)
    requires Image(before.durable, before.pending, image)
    requires generation !in before.used && IsGeneration(generation)
    ensures fresh(recovered) && recovered.Valid() && recovered.index.State() == ix
    ensures recovered.revision == Some(before.log[|before.log| - 1].payload.revision)
    ensures recovered.store.Files() == image
  {
    hide Inv, Catalogue.Consistent, Loads, ReadIndex, WriteIndex, Image, Newest, FileFormats.Lossless;
    RecoveredState(k, before, image);
    var store := new Store.SnapshotStore(k, image, before.used, before.log);
    SavedReads(formats, ix);
    NewestLoads(k, formats, image, before.log, ix);
    assert Loads(store.codec, CodecOf(formats), store.Files(), ix);
    var built := Open(store, formats, score, defaults, generation, tempId);
    recovered := built.value;
  }

  lemma RecoveredState(k: Codec, m: Machine, image: Dir)
    requires Inv(k, m) && 0 < m.synced == |m.log| && Image(m.durable, m.pending, image)
    ensures Inv(k, Machine(image, [], Idle, m.used, m.log, |m.log|))
    ensures Newest(k, image, m.log[|m.log| - 1].payload)
  {
    assert ImageOk(k, m, image);
    assert Shows(k, image, m.log, |m.log|);
    var after := Machine(image, [], Idle, m.used, m.log, |m.log|);
    assert m.log[..|m.log|] == m.log;
    hide Inv, ImageOk, Image;
    assert PowerFailure(k, m, after);
    PowerFailureKeeps(k, m, after);
  }
}
