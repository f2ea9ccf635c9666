/**
  Loading an index directory without its lock, as an immutable mount must: the newest snapshot, else
  the legacy pair, retried when a file vanished.  Writers, and even the migration of that very pair,
  may go on meanwhile.
  */
module ReadOnlyLoad {
  import opened Common
  import opened SnapshotProtocol
  import opened SnapshotDurability
  import opened SnapshotReader
  import opened SnapshotStore
  import opened LegacyMigration

  const READ_ONLY_LOAD_ATTEMPTS: nat := 3

  datatype ReadOnlyError = FileMissing | BadContents | OnlyIncomplete | ChangedTooOften

  // ---------------------------------------------------------------- the legacy files along a run

  lemma StepKeepsLegacy(k: Codec, a: Machine, b: Machine, n: Name)
    requires Step(k, a, b) && IsLegacy(n)
    ensures OnlyLoses(a.Dir(), b.Dir(), n)
  {
    hide PayloadAt, ManifestSequences, WriteOp, RetainedGenerations, IsRetained, Apply;
    var act :| Enabled(k, a, act) && b == Next(k, a, act);
    if act.WriteStep? {
      WriteKeepsLegacy(k, a, n);
    } else if act.UnlinkManifest? {
      RemoveKeepsLegacy(a, ManifestFile(act.sequence), b, n);
    } else if act.UnlinkData? || act.CleanUp? || act.RetireLegacy? {
      RemoveKeepsLegacy(a, act.name, b, n);
    } else {
      assert b.Dir() == a.Dir();
    }
  }

  lemma RemoveKeepsLegacy(a: Machine, gone: Name, b: Machine, n: Name)
    requires b == a.Do(Remove(gone)).(phase := b.phase)
    ensures OnlyLoses(a.Dir(), b.Dir(), n)
  {
    DirAfter(a, Remove(gone));
  }

  lemma OpSparesLegacy(k: Codec, c: Commit, i: nat, d: Dir, n: Name)
    requires i < 7 && IsLegacy(n)
    ensures OnlyLoses(d, Apply(WriteOp(k, c, i), d), n)
  {
  }

  lemma WriteKeepsLegacy(k: Codec, a: Machine, n: Name)
    requires Enabled(k, a, WriteStep) && IsLegacy(n)
    ensures OnlyLoses(a.Dir(), Next(k, a, WriteStep).Dir(), n)
  {
    hide Next, WriteOp, Apply, ApplyAll;
    var op := WriteOp(k, a.phase.commit, a.phase.done);
    DirAfter(a.(log := Next(k, a, WriteStep).log), op);
    NextWrites(k, a);
    OpSparesLegacy(k, a.phase.commit, a.phase.done, a.Dir(), n);
  }

  lemma NextWrites(k: Codec, a: Machine)
    requires Enabled(k, a, WriteStep)
    ensures Next(k, a, WriteStep).Dir() ==
            a.(log := Next(k, a, WriteStep).log).Do(WriteOp(k, a.phase.commit, a.phase.done)).Dir()
  {
  }

  /** A legacy file seen later was there before, with the same bytes. */
  lemma {:induction false} LegacyWasThere(k: Codec, h: seq<Machine>, i: nat, j: nat, n: Name)
    requires History(k, h) && i <= j < |h| && IsLegacy(n)
    ensures OnlyLoses(h[i].Dir(), h[j].Dir(), n)
    decreases j - i
  {
    hide Inv, Step;
    if i < j {
      LegacyWasThere(k, h, i, j - 1, n);
      assert StepsAt(k, h, j - 1);
      StepKeepsLegacy(k, h[j - 1], h[j], n);
    }
  }

  /** Once a directory loads without a whole legacy pair, some manifest is listed ever after. */
  lemma ListedEverAfter<V(!new)>(k: Codec, x: IndexCodec<V>, h: seq<Machine>, i: nat, j: nat, v: V)
    requires History(k, h) && i <= j < |h|
    requires Loads(k, x, h[i].Dir(), v) && !(LegacyIndex in h[i].Dir() && LegacyState in h[i].Dir())
    ensures ManifestSequences(h[j].Dir()) != {}
  {
    assert Inv(k, h[i]) && Inv(k, h[j]);
    LoadsByLog(k, x, h[i], v);
    RunWaits(k, h, i, j);
    assert Shows(k, h[j].Dir(), h[j].log, |h[j].log|);
    assert LastSequence(h[j].log) in ManifestSequences(h[j].Dir());
  }

  // ------------------------------------------------------------------------------- the operation

  class ReadOnlyLoader<V(!new)> {
    const reader: Reader
    const x: IndexCodec<V>

    constructor (reader: Reader, x: IndexCodec<V>)
      ensures this.reader == reader && this.x == x
    {
      this.reader, this.x := reader, x;
    }

    ghost predicate Valid()
      reads reader
    {
      reader.Valid() && History(reader.codec, reader.run)
    }

    /** At instant `i` a load of the directory yields `v`. */
    ghost predicate LoadsAt(i: nat, v: V)
      requires Valid() && i <= reader.now
      reads reader
    {
      Loads(reader.codec, x, reader.run[i].Dir(), v)
    }

    ghost predicate NothingLoadsAt(i: nat)
      requires Valid() && i <= reader.now
      reads reader
    {
      forall v: V :: !LoadsAt(i, v)
    }

    /** At `i` no manifest was listed, and at `j` one of the legacy files was gone. */
    ghost predicate Vanished(i: nat, j: nat)
      requires Valid() && i <= j <= reader.now
      reads reader
    {
      && ManifestSequences(reader.run[i].Dir()) == {}
      && !(LegacyIndex in reader.run[j].Dir() && LegacyState in reader.run[j].Dir())
    }

    /** `_read_legacy`, after instant `i` listed no manifest: the index first, then the sidecar. */
    method ReadLegacy(ghost i: nat) returns (r: Result<V, ReadOnlyError>, ghost j: nat)
      requires Valid() && i <= reader.now && ManifestSequences(reader.run[i].Dir()) == {}
      modifies reader
      ensures Valid() && i <= j <= reader.now && old(reader.now) <= reader.now
      ensures r.Ok? ==> LoadsAt(i, r.value)
      ensures r.Err? ==> r.error.BadContents? || r.error.FileMissing?
      ensures r == Err(BadContents) ==> NothingLoadsAt(i)
      ensures r == Err(FileMissing) ==> Vanished(i, j)
    {
      hide History, PayloadAt;
      reader.Interfere();
      j := reader.now;
      if LegacyIndex !in reader.views[reader.now] {
        return Err(FileMissing), j;
      }
      LegacyWasThere(reader.codec, reader.run, i, reader.now, LegacyIndex);
      var index := reader.views[reader.now][LegacyIndex];
      reader.Interfere();
      j := reader.now;
      if LegacyState !in reader.views[reader.now] {
        return Err(FileMissing), j;
      }
      LegacyWasThere(reader.codec, reader.run, i, reader.now, LegacyState);
      var value := x.read(index, reader.views[reader.now][LegacyState]);
      LoadsLegacy(i, index, reader.views[reader.now][LegacyState]);
      r := if value.Some? then Ok(value.value) else Err(BadContents);
    }

    lemma LoadsLegacy(i: nat, index: Bytes, state: Bytes)
      requires Valid() && i <= reader.now && ManifestSequences(reader.run[i].Dir()) == {}
      requires LegacyIndex in reader.run[i].Dir() && reader.run[i].Dir()[LegacyIndex] == index
      requires LegacyState in reader.run[i].Dir() && reader.run[i].Dir()[LegacyState] == state
      ensures forall v: V :: LoadsAt(i, v) <==> x.read(index, state) == Some(v)
    {
      hide History;
      forall p: Payload ensures !Newest(reader.codec, reader.run[i].Dir(), p) {
        assert p.revision.sequence !in ManifestSequences(reader.run[i].Dir());
      }
    }

    lemma LoadsNewest(i: nat, p: Payload)
      requires Valid() && i <= reader.now && Newest(reader.codec, reader.run[i].Dir(), p)
      ensures forall v: V :: LoadsAt(i, v) <==> x.read(p.index, p.state) == Some(v)
    {
      hide History;
      var d := reader.run[i].Dir();
      assert p.revision.sequence in ManifestSequences(d);
      forall q: Payload | Newest(reader.codec, d, q) ensures q == p {
        assert q.revision.sequence == p.revision.sequence;
      }
    }

    lemma LoadsNothing(i: nat)
      requires Valid() && i <= reader.now
      requires NothingComplete(reader.codec, reader.run[i].Dir()) && ManifestSequences(reader.run[i].Dir()) != {}
      ensures NothingLoadsAt(i)
    {
      hide History;
    }

    /**
      `_load_read_only_once`.  What it returns, the directory would have loaded at one instant of the
      call; what it reports as invalid or unrecoverable, it would not.
      */
    method LoadOnce() returns (r: Result<V, ReadOnlyError>, ghost i: nat, ghost j: nat)
      requires Valid()
      modifies reader
      ensures Valid() && old(reader.now) <= i <= j <= reader.now
      ensures r.Ok? ==> LoadsAt(i, r.value)
      ensures r == Err(BadContents) || r == Err(OnlyIncomplete) ==> NothingLoadsAt(i)
      ensures r == Err(FileMissing) ==> Vanished(i, j)
      ensures r == Err(ChangedTooOften) ==> reader.ListingsDiffer(i, j)
    {
      hide History, Newest, NothingComplete;
      reader.Interfere();
      i, j := reader.now, reader.now;
      ReaderFacts();
      if ManifestSequences(reader.views[reader.now]) == {} {
        var storeExists: bool := *;
        if !storeExists {
          r, j := ReadLegacy(i);
          return;
        }
      }
      var latest := reader.Latest();
      match latest
      case Ok(p) =>
        i :| old(reader.now) <= i <= reader.now && reader.NewestAt(i, p);
        j := i;
        assert reader.NewestAt(i, p);
        LoadsNewest(i, p);
        var value := x.read(p.index, p.state);
        r := if value.Some? then Ok(value.value) else Err(BadContents);
      case Err(NoSnapshot) =>
        i :| old(reader.now) <= i <= reader.now && reader.EmptyAt(i);
        assert reader.EmptyAt(i);
        r, j := ReadLegacy(i);
      case Err(Unrecoverable) =>
        i :| old(reader.now) <= i <= reader.now && reader.OnlyIncompleteAt(i);
        j := i;
        assert reader.OnlyIncompleteAt(i);
        LoadsNothing(i);
        r := Err(OnlyIncomplete);
      case Err(Unstable) =>
        i, j :| old(reader.now) <= i <= j <= reader.now && reader.ListingsDiffer(i, j);
        r := Err(ChangedTooOften);
    }

    lemma ReaderFacts()
      requires reader.Valid()
      ensures |reader.views| == |reader.run| && reader.now < |reader.run|
      ensures reader.views[reader.now] == reader.run[reader.now].Dir()
    {
    }

    /**
      `_load_read_only`.  If the directory loads `v` at every instant - as it does throughout a
      migration stopped and repeated anywhere - the load returns `v`, or reports that commits were too
      frequent; the retry makes a vanished legacy file harmless.  Each refusal was true within the call.
      */
    method Load() returns (r: Result<V, ReadOnlyError>)
      requires Valid()
      modifies reader
      ensures Valid() && old(reader.now) <= reader.now
      ensures r.Ok? ==> exists i: nat :: old(reader.now) <= i <= reader.now && LoadsAt(i, r.value)
      ensures r == Err(BadContents) || r == Err(OnlyIncomplete) ==>
                exists i: nat :: old(reader.now) <= i <= reader.now && NothingLoadsAt(i)
      ensures r == Err(FileMissing) ==>
                exists i: nat, j: nat, i': nat, j': nat, i'': nat, j'': nat ::
                  && old(reader.now) <= i <= j <= i' <= j' <= i'' <= j'' <= reader.now
                  && Vanished(i, j) && Vanished(i', j') && Vanished(i'', j'')
      ensures r == Err(ChangedTooOften) ==>
                exists i: nat, j: nat :: old(reader.now) <= i <= j <= reader.now && reader.ListingsDiffer(i, j)
      ensures forall v: V :: AlwaysLoads(old(reader.now), v) ==> r == Ok(v) || r == Err(ChangedTooOften)
    {
      hide History, Loads;
      ghost var start := reader.now;
      ghost var i, j := reader.now, reader.now;
      ghost var first, second := (start, start), (start, start);
      for attempt := 0 to READ_ONLY_LOAD_ATTEMPTS
        invariant Valid() && start <= first.0 <= first.1 <= second.0 <= second.1 <= i <= j <= reader.now
        invariant attempt > 0 ==> Vanished(i, j)
        invariant attempt > 1 ==> Vanished(second.0, second.1)
        invariant attempt > 2 ==> Vanished(first.0, first.1)
        invariant forall v: V :: AlwaysLoads(start, v) ==> attempt <= 1
      {
        ghost var i', j';
        r, i', j' := LoadOnce();
        if r.Ok? {
          OnlyValue(i', r.value);
        } else if r.error.BadContents? || r.error.OnlyIncomplete? {
          assert NothingLoadsAt(i');
        }
        if r != Err(FileMissing) {
          forall v: V | AlwaysLoads(start, v) ensures r == Ok(v) || r == Err(ChangedTooOften) {
            assert LoadsAt(i', v);
          }
          return;
        }
        if attempt > 0 {
          forall v: V ensures !AlwaysLoads(start, v) {
            VanishesOnce(start, i, j, i', j', v);
          }
        }
        first, second := second, (i, j);
        i, j := i', j';
      }
      r := Err(FileMissing);
    }

    lemma OnlyValue(i: nat, w: V)
      requires Valid() && i <= reader.now && LoadsAt(i, w)
      ensures forall v: V :: LoadsAt(i, v) ==> v == w
    {
      hide History;
      var d := reader.run[i].Dir();
      if p: Payload :| Newest(reader.codec, d, p) {
        LoadsNewest(i, p);
      }
    }

    /** No two attempts in a row can both find the legacy pair going away. */
    lemma VanishesOnce(from: nat, i: nat, j: nat, i': nat, j': nat, v: V)
      requires Valid() && from <= i <= j <= i' <= j' <= reader.now
      requires Vanished(i, j) && Vanished(i', j')
      ensures !AlwaysLoads(from, v)
    {
      hide History, Loads;
      ReaderFacts();
      if AlwaysLoads(from, v) {
        assert LoadsAt(j, v);
        ListedEverAfter(reader.codec, x, reader.run, j, i', v);
      }
    }

    ghost predicate AlwaysLoads(from: nat, v: V)
      requires Valid() && from <= reader.now
      reads reader
    {
      forall i :: from <= i <= reader.now ==> LoadsAt(i, v)
    }
  }
}
