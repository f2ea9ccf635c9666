/**
  Loading an index directory for writing, including the migration of the pre-snapshot layout
  (`index.faiss` beside `state.json`) into a first generation.
  */
module LegacyMigration {
  import opened Common
  import opened SnapshotProtocol
  import opened SnapshotDurability
  import opened SnapshotReader
  import opened SnapshotStore

  // How an index value is written as its two files, and read back and validated from them.  Whatever
  // was read can be written and read back.
  datatype IndexCodec<!V(!new)> = IndexCodec(read: (Bytes, Bytes) -> Option<V>, write: V -> (Bytes, Bytes)) {
    ghost predicate Rewrites(v: V) {
      read(write(v).0, write(v).1) == Some(v)
    }

    ghost predicate Faithful() {
      forall index: Bytes, state: Bytes :: read(index, state).Some? ==> Rewrites(read(index, state).value)
    }
  }

  ghost predicate LegacyIntact<V(!new)>(x: IndexCodec<V>, d: Dir, v: V) {
    && LegacyIndex in d && LegacyState in d
    && x.read(d[LegacyIndex], d[LegacyState]) == Some(v)
  }

  ghost predicate EntryReads<V(!new)>(x: IndexCodec<V>, e: Entry, v: V) {
    x.read(e.payload.index, e.payload.state) == Some(v)
  }

  ghost predicate PublishesOnly<V(!new)>(x: IndexCodec<V>, log: seq<Entry>, from: nat, v: V) {
    forall i :: from <= i < |log| ==> EntryReads(x, log[i], v)
  }

  /** A writable load of directory `d` yields `v`, from its newest snapshot or from the legacy pair. */
  ghost predicate Loads<V(!new)>(k: Codec, x: IndexCodec<V>, d: Dir, v: V) {
    || (exists p: Payload :: Newest(k, d, p) && x.read(p.index, p.state) == Some(v))
    || (ManifestSequences(d) == {} && LegacyIntact(x, d, v))
  }

  // ------------------------------------------------------------------- the legacy pair in a run

  /** Manifests appear only with a log entry, and the legacy pair leaves only after one. */
  ghost predicate LegacyWaits(a: Machine, b: Machine) {
    && a.log <= b.log
    && (b.log == a.log ==> ManifestSequences(b.Dir()) <= ManifestSequences(a.Dir()))
    && (a.log == [] ==> forall n :: IsLegacy(n) && n in a.Dir() ==> n in b.Dir() && b.Dir()[n] == a.Dir()[n])
  }

  lemma RemoveWaits(a: Machine, n: Name, b: Machine)
    requires b == a.Do(Remove(n)).(phase := b.phase)
    requires IsLegacy(n) ==> a.log != []
    ensures LegacyWaits(a, b)
  {
    DirAfter(a, Remove(n));
  }

  lemma WriteWaits(k: Codec, a: Machine)
    requires Enabled(k, a, WriteStep)
    ensures LegacyWaits(a, Next(k, a, WriteStep))
  {
    var b := Next(k, a, WriteStep);
    DirAfter(a.(log := b.log), WriteOp(k, a.phase.commit, a.phase.done));
  }

  lemma StepWaits(k: Codec, a: Machine, b: Machine)
    requires Step(k, a, b)
    ensures LegacyWaits(a, b)
  {
    hide WriteOp, ManifestSequences, IsRetained, AllRetained, Apply, IsHex;
    var act :| Enabled(k, a, act) && b == Next(k, a, act);
    if act.WriteStep? {
      WriteWaits(k, a);
    } else if act.UnlinkManifest? {
      RemoveWaits(a, ManifestFile(act.sequence), b);
    } else if act.UnlinkData? || act.CleanUp? || act.RetireLegacy? {
      RemoveWaits(a, act.name, b);
    }
  }

  lemma WaitsOn(a: Machine, b: Machine, c: Machine)
    requires LegacyWaits(a, b) && LegacyWaits(b, c) && c.log == []
    ensures LegacyWaits(a, c)
  {
    hide ManifestSequences, Machine.Dir;
  }

  lemma {:induction false} RunWaits(k: Codec, h: seq<Machine>, i: nat, j: nat)
    requires History(k, h) && i <= j < |h|
    ensures h[i].log <= h[j].log
    ensures h[j].log == [] ==> LegacyWaits(h[i], h[j])
    decreases j - i
  {
    hide Inv, Step, ManifestSequences, Machine.Dir;
    if i < j {
      RunWaits(k, h, i, j - 1);
      assert StepsAt(k, h, j - 1);
      StepWaits(k, h[j - 1], h[j]);
      if h[j].log == [] {
        WaitsOn(h[i], h[j - 1], h[j]);
      }
    }
  }

  /**
    Migration never loses the index.  Take any run - attempts that stop at any step, repeated any
    number of times - that starts from a directory loading `v` and publishes only copies of `v`.
    In every state of that run a writable load still yields `v`.
    */
  lemma MigrationNeverLoses<V(!new)>(k: Codec, x: IndexCodec<V>, h: seq<Machine>, from: nat, v: V)
    requires History(k, h) && from < |h|
    requires Loads(k, x, h[from].Dir(), v)
    requires PublishesOnly(x, h[|h| - 1].log, |h[from].log|, v)
    ensures forall i :: from <= i < |h| ==> Loads(k, x, h[i].Dir(), v)
  {
    hide Inv, Step, Newest;
    forall i | from <= i < |h| ensures Loads(k, x, h[i].Dir(), v) {
      RunWaits(k, h, from, i);
      RunWaits(k, h, i, |h| - 1);
      LoadsByLog(k, x, h[from], v);
      if h[i].log != [] {
        LastEntryReads(x, h[from].log, h[i].log, h[|h| - 1].log, v);
      }
      LogLoads(k, x, h[i], v);
    }
  }

  lemma LogLoads<V(!new)>(k: Codec, x: IndexCodec<V>, m: Machine, v: V)
    requires Inv(k, m)
    requires m.log != [] ==> EntryReads(x, m.log[|m.log| - 1], v)
    requires m.log == [] ==> ManifestSequences(m.Dir()) == {} && LegacyIntact(x, m.Dir(), v)
    ensures Loads(k, x, m.Dir(), v)
  {
    assert Shows(k, m.Dir(), m.log, |m.log|);
  }

  lemma LastEntryReads<V(!new)>(x: IndexCodec<V>, first: seq<Entry>, now: seq<Entry>, last: seq<Entry>, v: V)
    requires first <= now <= last && now != []
    requires first != [] ==> EntryReads(x, first[|first| - 1], v)
    requires PublishesOnly(x, last, |first|, v)
    ensures EntryReads(x, now[|now| - 1], v)
  {
    assert now[|now| - 1] == last[|now| - 1];
    assert first == [] || first[|first| - 1] == now[|first| - 1];
  }

  lemma LoadsByLog<V(!new)>(k: Codec, x: IndexCodec<V>, m: Machine, v: V)
    requires Inv(k, m) && Loads(k, x, m.Dir(), v)
    ensures m.log != [] ==> EntryReads(x, m.log[|m.log| - 1], v)
    ensures m.log == [] ==> ManifestSequences(m.Dir()) == {} && LegacyIntact(x, m.Dir(), v)
  {
    assert Shows(k, m.Dir(), m.log, |m.log|);
    if m.log != [] {
      assert LastSequence(m.log) in ManifestSequences(m.Dir());
    }
  }

  /** What a directory loads, by the newest entry it shows. */
  lemma LoadedValue<V(!new)>(k: Codec, x: IndexCodec<V>, d: Dir, log: seq<Entry>)
    requires Shows(k, d, log, |log|)
    ensures log != [] ==> forall v: V :: Loads(k, x, d, v) <==> EntryReads(x, log[|log| - 1], v)
    ensures log == [] && ManifestSequences(d) == {} ==> forall v: V :: Loads(k, x, d, v) <==> LegacyIntact(x, d, v)
    ensures log == [] && ManifestSequences(d) != {} ==> forall v: V :: !Loads(k, x, d, v)
  {
    if log != [] {
      assert LastSequence(log) in ManifestSequences(d);
    }
  }

  // ------------------------------------------------------------------------------- crash images

  /** Whatever a power failure loses, the directory still loads `v`. */
  ghost predicate AllImagesLoad<V(!new)>(k: Codec, x: IndexCodec<V>, m: Machine, v: V) {
    forall d: Dir :: Image(m.durable, m.pending, d) ==> Loads(k, x, d, v)
  }

  /** Once a copy of `v` is durable, and nothing but copies was published since, every image loads it. */
  lemma DurableCopyLoads<V(!new)>(k: Codec, x: IndexCodec<V>, m: Machine, v: V)
    requires Inv(k, m) && 0 < m.synced <= |m.log| && PublishesOnly(x, m.log, m.synced - 1, v)
    ensures AllImagesLoad(k, x, m, v)
  {
    forall d: Dir | Image(m.durable, m.pending, d) ensures Loads(k, x, d, v) {
      assert ImageOk(k, m, d);
      var j: nat :| m.synced <= j <= |m.log| && Shows(k, d, m.log, j);
      assert EntryReads(x, m.log[j - 1], v);
    }
  }

  // -------------------------------------------------------------------------- the load operation

  datatype LoadError = MissingLegacy | Invalid | NotRecoverable(cause: ReadError) | CommitFailed(reason: CommitError) | UnlinkFailed

  class IndexDirectory<V(!new)> {
    const store: SnapshotStore
    const x: IndexCodec<V>

    constructor (store: SnapshotStore, x: IndexCodec<V>)
      ensures this.store == store && this.x == x
    {
      this.store, this.x := store, x;
    }

    ghost predicate AllStatesLoad(from: nat, v: V)
      reads store
    {
      forall i :: from <= i < |store.hist| ==> Loads(store.codec, x, store.hist[i].Dir(), v)
    }

    /**
      `_load_writable`: the newest snapshot, or the migrated legacy pair when none was committed.
      If the directory loads `v`, so does every state passed through, and success returns `v`; if it
      loads nothing the call refuses and touches nothing.  Unless an earlier fsync failed, what it
      returns is then what every crash image loads too.
      */
    method LoadWritable(generation: Generation, tempId: string) returns (r: Result<(V, Revision), LoadError>)
      requires store.Valid() && store.phase.Idle? && generation !in store.used && IsGeneration(generation) && x.Faithful()
      modifies store
      ensures store.Valid() && old(store.hist) <= store.hist && store.phase.Idle?
      ensures forall v: V :: old(Loads(store.codec, x, store.Files(), v)) ==>
                && AllStatesLoad(|old(store.hist)| - 1, v)
                && (r.Ok? ==> r.value.0 == v)
                && (r.Err? ==> r.error.CommitFailed? || r.error.UnlinkFailed?)
      ensures r.Ok? ==> forall v: V :: v == r.value.0 ==> old(Loads(store.codec, x, store.Files(), v))
      ensures r.Ok? ==> store.log != [] && r.value.1 == store.log[|store.log| - 1].payload.revision
      ensures r.Ok? && (old(store.log) == [] || old(store.synced) == |old(store.log)|) ==>
                AllImagesLoad(store.codec, x, store.State(), r.value.0)
      ensures r.Err? && !r.error.CommitFailed? && !r.error.UnlinkFailed? ==>
                store.hist == old(store.hist) && forall v: V :: !Loads(store.codec, x, store.Files(), v)
      ensures old(store.log) != [] ==> store.hist == old(store.hist)
      ensures old(store.log) != [] && r.Err? ==> !r.error.CommitFailed? && !r.error.UnlinkFailed?
    {
      hide History, Inv, PhaseOk, Newest, Loads, LegacyIntact, ManifestSequences, PayloadAt, Shows;
      StateFacts(store.codec, store.hist);
      var current := store.LatestLocked();
      LoadedValue(store.codec, x, store.Files(), store.log);
      match current
      case Ok(p) =>
        var value := x.read(p.index, p.state);
        r := if value.Some? then Ok((value.value, p.revision)) else Err(Invalid);
        SyncedLoads(value);
        assert forall v: V :: AllStatesLoad(|store.hist| - 1, v) <==> value == Some(v);
      case Err(NoSnapshot) =>
        r := MigrateLegacy(generation, tempId);
      case Err(e) =>
        r := Err(NotRecoverable(e));
    }

    /** `_migrate_legacy`: read and validate the legacy pair, commit a copy, then unlink the pair. */
    method MigrateLegacy(generation: Generation, tempId: string) returns (r: Result<(V, Revision), LoadError>)
      requires store.Valid() && store.phase.Idle? && generation !in store.used && IsGeneration(generation) && x.Faithful()
      requires store.log == [] && ManifestSequences(store.Files()) == {}
      modifies store
      ensures store.Valid() && old(store.hist) <= store.hist && store.phase.Idle?
      ensures forall v: V :: old(LegacyIntact(x, store.Files(), v)) ==>
                && AllStatesLoad(|old(store.hist)| - 1, v)
                && (r.Ok? ==> r.value.0 == v)
                && (r.Err? ==> r.error.CommitFailed? || r.error.UnlinkFailed?)
      ensures r.Ok? ==> store.log != [] && r.value.1 == store.log[|store.log| - 1].payload.revision
      ensures r.Ok? ==> old(LegacyIntact(x, store.Files(), r.value.0))
      ensures r.Ok? ==> LegacyIndex !in store.Files() && LegacyState !in store.Files()
      ensures r.Ok? ==> AllImagesLoad(store.codec, x, store.State(), r.value.0)
      ensures r.Err? && !r.error.CommitFailed? && !r.error.UnlinkFailed? ==>
                store.hist == old(store.hist) && forall v: V :: !LegacyIntact(x, store.Files(), v)
    {
      if LegacyIndex !in store.Files() || LegacyState !in store.Files() {
        return Err(MissingLegacy);
      }
      var value := x.read(store.Files()[LegacyIndex], store.Files()[LegacyState]);
      if value.None? {
        return Err(Invalid);
      }
      r := CommitCopy(value.value, generation, tempId);
    }

    method CommitCopy(value: V, generation: Generation, tempId: string) returns (r: Result<(V, Revision), LoadError>)
      requires store.Valid() && store.phase.Idle? && generation !in store.used && IsGeneration(generation) && x.Faithful()
      requires store.log == [] && ManifestSequences(store.Files()) == {} && LegacyIntact(x, store.Files(), value)
      modifies store
      ensures store.Valid() && old(store.hist) <= store.hist && store.phase.Idle?
      ensures AllStatesLoad(|old(store.hist)| - 1, value)
      ensures r.Ok? ==>
                && store.log != [] && r.value == (value, store.log[|store.log| - 1].payload.revision)
                && LegacyIndex !in store.Files() && LegacyState !in store.Files()
                && AllImagesLoad(store.codec, x, store.State(), value)
      ensures r.Err? ==> r.error.CommitFailed? || r.error.UnlinkFailed?
    {
      hide History, Inv, PhaseOk, Newest, PayloadAt, Shows;
      StateFacts(store.codec, store.hist);
      assert Loads(store.codec, x, store.Files(), value);
      assert x.Rewrites(value) by {
        assert x.read(store.Files()[LegacyIndex], store.Files()[LegacyState]) == Some(value);
      }
      var copy := x.write(value);
      var committed := store.Commit(copy.0, copy.1, None, generation, tempId);
      AllLoad(old(store.hist), value);
      if committed.Err? {
        return Err(CommitFailed(committed.error));
      }
      var ok := RetireLegacyPair();
      AllLoad(old(store.hist), value);
      SyncedLoads(Some(value));
      return if ok then Ok((value, committed.value)) else Err(UnlinkFailed);
    }

    /** The two unlinks; false when one failed. */
    method RetireLegacyPair() returns (ok: bool)
      requires store.Valid() && store.phase.Idle? && 0 < store.synced == |store.log|
      modifies store
      ensures store.Valid() && old(store.hist) <= store.hist && store.phase.Idle? && store.log == old(store.log)
      ensures store.synced == old(store.synced)
      ensures ok ==> LegacyIndex !in store.Files() && LegacyState !in store.Files()
    {
      hide History, Inv;
      if * { return false; }
      ghost var was := store.State();
      store.Unlink(LegacyIndex, RetireLegacy(LegacyIndex));
      DirAfter(was, Remove(LegacyIndex));
      if * { return false; }
      was := store.State();
      store.Unlink(LegacyState, RetireLegacy(LegacyState));
      DirAfter(was, Remove(LegacyState));
      return true;
    }

    lemma SyncedLoads(value: Option<V>)
      requires store.Valid() && store.log != []
      requires x.read(store.log[|store.log| - 1].payload.index, store.log[|store.log| - 1].payload.state) == value
      ensures value.Some? && store.synced == |store.log| ==> AllImagesLoad(store.codec, x, store.State(), value.value)
    {
      if value.Some? && store.synced == |store.log| {
        DurableCopyLoads(store.codec, x, store.State(), value.value);
      }
    }

    lemma AllLoad(before: seq<Machine>, v: V)
      requires store.Valid() && before != [] && before <= store.hist
      requires Loads(store.codec, x, before[|before| - 1].Dir(), v)
      requires before[|before| - 1].log == []
      requires PublishesOnly(x, store.log, 0, v)
      ensures AllStatesLoad(|before| - 1, v)
    {
      MigrationNeverLoses(store.codec, x, store.hist, |before| - 1, v);
    }
  }
}
