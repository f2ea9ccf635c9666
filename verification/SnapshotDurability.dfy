/**
  Crash atomicity: every step of the commit protocol keeps the invariant, and so whatever subset of
  the unsynced operations a power failure loses, the newest complete snapshot is the last durable
  one or one published after it, whole.
  */
module SnapshotDurability {
  import opened Common
  import opened SnapshotProtocol

  // ------------------------------------------------------------------------------- crash images

  lemma DirAfter(m: Machine, op: Op)
    ensures m.Do(op).Dir() == Apply(op, m.Dir())
  {
    if !op.Sync? {
      assert (m.pending + [op])[..|m.pending|] == m.pending;
    }
  }

  lemma {:induction false} DirIsImage(durable: Dir, pending: seq<Op>)
    ensures Image(durable, pending, ApplyAll(durable, pending))
  {
    if pending != [] {
      DirIsImage(durable, pending[..|pending| - 1]);
    }
  }

  lemma ImageBefore(durable: Dir, pending: seq<Op>, op: Op, v: Dir) returns (u: Dir)
    requires Image(durable, pending + [op], v)
    ensures Image(durable, pending, u) && KeptOrLost(op, u, v)
  {
    assert (pending + [op])[..|pending|] == pending;
    u :| Image(durable, pending, u) && KeptOrLost(op, u, v);
  }

  lemma ImagesAfter(k: Codec, m: Machine, op: Op, m': Machine)
    requires m'.durable == m.durable && m'.pending == m.pending + [op]
    requires forall u: Dir :: Image(m.durable, m.pending, u) ==> ImageOk(k, m', u) && ImageOk(k, m', Apply(op, u))
    ensures ImagesOk(k, m')
  {
    forall v: Dir | Image(m'.durable, m'.pending, v) ensures ImageOk(k, m', v) {
      var u := ImageBefore(m.durable, m.pending, op, v);
    }
  }

  // -------------------------------------------------------------------- what an operation touches

  /** An operation on temporary or legacy names decides nothing about any snapshot. */
  predicate Inert(op: Op) {
    match op
    case Put(n, _) => IsTemp(n) || IsLegacy(n)
    case Remove(n) => IsTemp(n) || IsLegacy(n)
    case Move(_, _, _) => false
    case Sync => true
  }

  lemma InertKeeps(k: Codec, op: Op, d: Dir)
    requires Inert(op)
    ensures forall s: nat :: PayloadAt(k, Apply(op, d), s) == PayloadAt(k, d, s)
    ensures forall s: nat, g: Generation :: MentionsAt(k, Apply(op, d), s, g) == MentionsAt(k, d, s, g)
  {
  }

  /** A data rename changes nothing while no manifest names its generation. */
  lemma DataMoveKeeps(k: Codec, op: Op, d: Dir)
    requires op.Move? && IsTemp(op.src) && (op.dst.IndexFile? || op.dst.StateFile?)
    requires forall s: nat :: !MentionsAt(k, d, s, op.dst.generation)
    ensures forall s: nat :: PayloadAt(k, Apply(op, d), s) == PayloadAt(k, d, s)
    ensures forall s: nat, g: Generation :: MentionsAt(k, Apply(op, d), s, g) == MentionsAt(k, d, s, g)
  {
    var d' := Apply(op, d);
    forall s: nat ensures PayloadAt(k, d', s) == PayloadAt(k, d, s) {
      if ManifestAt(k, d, s).Some? {
        assert MentionsAt(k, d, s, ManifestAt(k, d, s).value.generation);
      }
    }
  }

  lemma {:induction false} ChainRises(log: seq<Entry>, i: nat, j: nat)
    requires Chain(log) && i <= j < |log|
    ensures log[j].payload.revision.sequence == log[i].payload.revision.sequence + (j - i)
    decreases j - i
  {
    if i < j {
      ChainRises(log, i, j - 1);
      assert Follows(log, j);
    }
  }

  lemma ChainExtends(log: seq<Entry>, e: Entry)
    requires Chain(log) && e.payload.revision.sequence == LastSequence(log) + 1
    requires e.base.Some? && log != [] ==> e.base.value == log[|log| - 1].payload.revision
    ensures Chain(log + [e])
  {
    forall i: nat | 0 < i < |log + [e]| ensures Follows(log + [e], i) {
      if i < |log| {
        assert Follows(log, i);
      }
    }
  }

  lemma ChainPrefix(log: seq<Entry>, j: nat)
    requires Chain(log) && j <= |log|
    ensures Chain(log[..j])
  {
    forall i: nat | 0 < i < j ensures Follows(log[..j], i) {
      assert Follows(log, i);
    }
  }

  /** Nothing at or beyond the next sequence is complete in any crash image. */
  lemma NextIsFree(k: Codec, m: Machine, v: Dir, s: nat)
    requires Chain(m.log) && m.synced <= |m.log| && ShowsSome(k, v, m.log, m.synced)
    requires s > LastSequence(m.log)
    ensures PayloadAt(k, v, s) == None
  {
    var j: nat :| m.synced <= j <= |m.log| && Shows(k, v, m.log, j);
    if j > 0 {
      ChainRises(m.log, j - 1, |m.log| - 1);
    }
  }

  /** The manifest a commit writes reads back as written. */
  lemma ManifestReads(k: Codec, c: Commit)
    requires k.Lossless() && IsGeneration(c.generation) && 1 <= c.sequence
    ensures k.decode(k.encode(ManifestOf(k, c))) == Some(ManifestOf(k, c))
  {
    hide IsHex;
    assert ManifestOf(k, c).WellShaped();
  }

  /** The manifest rename gives its own sequence a manifest, and changes no other snapshot. */
  lemma PublishedManifest(k: Codec, c: Commit, v: Dir)
    requires k.Lossless() && IsGeneration(c.generation) && 1 <= c.sequence
    ensures var v' := Apply(WriteOp(k, c, 5), v);
            && ManifestAt(k, v', c.sequence) == Some(ManifestOf(k, c))
            && (forall s: nat :: s != c.sequence ==> PayloadAt(k, v', s) == PayloadAt(k, v, s))
            && v'.Keys == v.Keys - {ManifestTemp(c.tempId)} + {ManifestFile(c.sequence)}
            && (forall n :: n in v && !n.ManifestTemp? && n != ManifestFile(c.sequence) ==> n in v' && v'[n] == v[n])
  {
    ManifestReads(k, c);
    hide IsHex, IsGeneration;
  }

  /** With both data files in place the rename shows the new generation whole. */
  lemma PublishWhole(k: Codec, c: Commit, v: Dir)
    requires k.Lossless() && IsGeneration(c.generation) && 1 <= c.sequence
    requires IndexFile(c.generation) in v && v[IndexFile(c.generation)] == c.index
    requires StateFile(c.generation) in v && v[StateFile(c.generation)] == c.state
    requires forall s: nat :: s > c.sequence ==> PayloadAt(k, v, s) == None
    ensures Newest(k, Apply(WriteOp(k, c, 5), v), c.ToPayload())
  {
    hide IsGeneration, WriteOp;
    PublishedManifest(k, c, v);
  }

  /** With one of them missing it leaves the snapshot shown before. */
  lemma PublishTorn(k: Codec, c: Commit, v: Dir, log: seq<Entry>, j: nat)
    requires k.Lossless() && IsGeneration(c.generation) && 1 <= c.sequence
    requires !(IndexFile(c.generation) in v && StateFile(c.generation) in v)
    requires j <= |log| && Shows(k, v, log, j) && (j > 0 ==> log[j - 1].payload.revision.sequence != c.sequence)
    requires PayloadAt(k, v, c.sequence) == None
    ensures Shows(k, Apply(WriteOp(k, c, 5), v), log, j)
  {
    hide IsGeneration, WriteOp;
    PublishedManifest(k, c, v);
    assert PayloadAt(k, Apply(WriteOp(k, c, 5), v), c.sequence) == None;
  }

  /** The manifest rename: the image shows the new generation whole, or exactly what it showed before. */
  lemma PublishShows(k: Codec, m: Machine, v: Dir)
    requires k.Lossless() && Chain(m.log) && m.synced <= |m.log|
    requires m.phase.Writing? && m.phase.done == 5
    requires m.phase.commit.sequence == LastSequence(m.log) + 1 && IsGeneration(m.phase.commit.generation)
    requires ImageOk(k, m, v)
    ensures var c := m.phase.commit;
            var log := m.log + [Entry(c.ToPayload(), m.phase.base)];
            var v' := Apply(WriteOp(k, c, 5), v);
            && ShowsSome(k, v, log, m.synced)
            && ShowsSome(k, v', log, m.synced)
            && (IndexFile(c.generation) in v && StateFile(c.generation) in v ==> Shows(k, v', log, |log|))
  {
    hide IsGeneration, WriteOp, PayloadAt, Within;
    var c := m.phase.commit;
    var log := m.log + [Entry(c.ToPayload(), m.phase.base)];
    var v' := Apply(WriteOp(k, c, 5), v);
    var j: nat :| m.synced <= j <= |m.log| && Shows(k, v, m.log, j);
    assert Shows(k, v, log, j);
    forall s: nat | s > LastSequence(m.log) ensures PayloadAt(k, v, s) == None {
      NextIsFree(k, m, v, s);
    }
    if IndexFile(c.generation) in v && StateFile(c.generation) in v {
      PublishWhole(k, c, v);
      assert Shows(k, v', log, |log|);
    } else {
      if j > 0 {
        ChainRises(m.log, j - 1, |m.log| - 1);
      }
      PublishTorn(k, c, v, log, j);
    }
  }

  // ------------------------------------------------------------------------- steps of the machine

  lemma ShowsEqually(k: Codec, d: Dir, d': Dir, log: seq<Entry>, from: nat)
    requires forall s: nat :: PayloadAt(k, d', s) == PayloadAt(k, d, s)
    requires from <= |log|
    ensures ShowsSome(k, d, log, from) ==> ShowsSome(k, d', log, from)
    ensures Shows(k, d, log, |log|) ==> Shows(k, d', log, |log|)
  {
    if ShowsSome(k, d, log, from) {
      var j: nat :| from <= j <= |log| && Shows(k, d, log, j);
      assert Shows(k, d', log, j);
    }
  }

  lemma DirOk(k: Codec, m: Machine)
    requires ImagesOk(k, m)
    ensures ImageOk(k, m, m.Dir())
  {
    DirIsImage(m.durable, m.pending);
  }

  lemma SyncKeeps(k: Codec, m: Machine, m': Machine)
    requires Inv(k, m)
    requires m' == m.Do(Sync).(phase := m'.phase)
    requires m'.phase.Writing? ==> m'.phase.done >= 6
    ensures ImagesOk(k, m') && m'.Dir() == m.Dir() && Shows(k, m'.Dir(), m'.log, |m'.log|)
  {
    DirOk(k, m);
    assert ShowsSome(k, m.Dir(), m.log, |m.log|);
  }

  /** Staging operations (the first five) leave every image showing what it showed. */
  lemma StageKeeps(k: Codec, m: Machine)
    requires Inv(k, m) && m.phase.Writing? && m.phase.done < 5
    ensures Inv(k, Next(k, m, WriteStep))
  {
    StageImages(k, m);
    StageDir(k, m);
    StageBooks(k, m);
    hide ImagesOk, Shows, Chain, PhaseOk, WriteOp, IsHex;
  }

  lemma StageImages(k: Codec, m: Machine)
    requires Inv(k, m) && m.phase.Writing? && m.phase.done < 5
    ensures ImagesOk(k, Next(k, m, WriteStep))
  {
    hide ImageOk, WriteOp, Shows, Chain, PhaseOk;
    var op, m' := WriteOp(k, m.phase.commit, m.phase.done), Next(k, m, WriteStep);
    StageIsNoSync(k, m.phase.commit, m.phase.done);
    forall u: Dir | Image(m.durable, m.pending, u) ensures ImageOk(k, m', u) && ImageOk(k, m', Apply(op, u)) {
      StagedImage(k, m, u);
    }
    ImagesAfter(k, m, op, m');
  }

  lemma StageIsNoSync(k: Codec, c: Commit, i: nat)
    requires i < 5
    ensures !WriteOp(k, c, i).Sync?
  {
  }

  lemma StageDir(k: Codec, m: Machine)
    requires Inv(k, m) && m.phase.Writing? && m.phase.done < 5
    ensures var m' := Next(k, m, WriteStep);
            m'.Dir() == Apply(WriteOp(k, m.phase.commit, m.phase.done), m.Dir()) && Shows(k, m'.Dir(), m'.log, |m'.log|)
  {
    hide PhaseOk, Chain, ImageOk, WriteOp;
    DirAfter(m, WriteOp(k, m.phase.commit, m.phase.done));
    DirOk(k, m);
    StagedImage(k, m, m.Dir());
  }

  lemma StageBooks(k: Codec, m: Machine)
    requires Inv(k, m) && m.phase.Writing? && m.phase.done < 5
    ensures PhaseOk(k, Next(k, m, WriteStep))
  {
    hide ImagesOk, Shows, Chain, IsHex, IsGeneration;
    DirAfter(m, WriteOp(k, m.phase.commit, m.phase.done));
  }

  lemma StagedImage(k: Codec, m: Machine, u: Dir)
    requires Inv(k, m) && m.phase.Writing? && m.phase.done < 5 && ImageOk(k, m, u)
    ensures var m' := Next(k, m, WriteStep);
            var u' := Apply(WriteOp(k, m.phase.commit, m.phase.done), u);
            ImageOk(k, m', u) && ImageOk(k, m', u') && (Shows(k, u, m.log, |m.log|) ==> Shows(k, u', m.log, |m.log|))
  {
    var c, i := m.phase.commit, m.phase.done;
    var op := WriteOp(k, c, i);
    if i == 2 || i == 3 {
      DataMoveKeeps(k, op, u);
    } else {
      InertKeeps(k, op, u);
    }
    ShowsEqually(k, u, Apply(op, u), m.log, m.synced);
  }

  lemma PublishedImage(k: Codec, m: Machine, u: Dir)
    requires Inv(k, m) && m.phase.Writing? && m.phase.done == 5 && ImageOk(k, m, u)
    ensures var m' := Next(k, m, WriteStep);
            var u' := Apply(WriteOp(k, m.phase.commit, 5), u);
            ImageOk(k, m', u) && ImageOk(k, m', u')
  {
    hide ImagesOk, ShowsSome, Shows;
    var c := m.phase.commit;
    var u' := Apply(WriteOp(k, c, 5), u);
    PublishShows(k, m, u);
    assert Within(k, u', m.used) by {
      forall s: nat, g: Generation | MentionsAt(k, u', s, g) ensures g in m.used {
        if s != c.sequence {
          assert MentionsAt(k, u, s, g);
        }
      }
    }
  }

  lemma PublishKeeps(k: Codec, m: Machine)
    requires Inv(k, m) && m.phase.Writing? && m.phase.done == 5
    ensures Inv(k, Next(k, m, WriteStep))
  {
    PublishImages(k, m);
    PublishDir(k, m);
    PublishBooks(k, m);
    hide ImagesOk, Shows, Chain, PhaseOk;
  }

  lemma PublishDir(k: Codec, m: Machine)
    requires Inv(k, m) && m.phase.Writing? && m.phase.done == 5
    ensures var m' := Next(k, m, WriteStep);
            && m'.Dir() == Apply(WriteOp(k, m.phase.commit, 5), m.Dir())
            && Shows(k, m'.Dir(), m'.log, |m'.log|)
  {
    var m' := Next(k, m, WriteStep);
    DirOk(k, m);
    DirAfter(m.(log := m'.log), WriteOp(k, m.phase.commit, 5));
    PublishShows(k, m, m.Dir());
    hide ImagesOk, Chain;
  }

  lemma PublishBooks(k: Codec, m: Machine)
    requires Inv(k, m) && m.phase.Writing? && m.phase.done == 5
    ensures var m' := Next(k, m, WriteStep);
            Chain(m'.log) && PhaseOk(k, m') && m'.synced <= |m'.log|
  {
    hide ImagesOk, Shows;
    ChainExtends(m.log, Entry(m.phase.commit.ToPayload(), m.phase.base));
  }

  lemma PublishImages(k: Codec, m: Machine)
    requires Inv(k, m) && m.phase.Writing? && m.phase.done == 5
    ensures ImagesOk(k, Next(k, m, WriteStep))
  {
    hide ImageOk;
    var op, m' := WriteOp(k, m.phase.commit, 5), Next(k, m, WriteStep);
    forall u: Dir | Image(m.durable, m.pending, u) ensures ImageOk(k, m', u) && ImageOk(k, m', Apply(op, u)) {
      PublishedImage(k, m, u);
    }
    ImagesAfter(k, m, op, m');
  }

  lemma WriteKeeps(k: Codec, m: Machine)
    requires Inv(k, m) && Enabled(k, m, WriteStep)
    ensures Inv(k, Next(k, m, WriteStep))
  {
    if m.phase.done < 5 {
      StageKeeps(k, m);
    } else if m.phase.done == 5 {
      PublishKeeps(k, m);
    } else {
      var m' := Next(k, m, WriteStep);
      SyncKeeps(k, m, m');
    }
  }

  lemma BeginKeeps(k: Codec, m: Machine, c: Commit, base: Option<Revision>)
    requires Inv(k, m) && Enabled(k, m, Begin(c, base))
    ensures Inv(k, Next(k, m, Begin(c, base)))
  {
    var m' := Next(k, m, Begin(c, base));
    forall v: Dir | Image(m'.durable, m'.pending, v) ensures ImageOk(k, m', v) {
      assert ImageOk(k, m, v);
    }
  }

  /** Removing a file nothing durable needs keeps every image showing the last entry. */
  lemma RemoveKeeps(k: Codec, m: Machine, n: Name, m': Machine)
    requires Inv(k, m) && (m.phase.Writing? ==> m.phase.done == 7) && (m'.phase.Writing? ==> m'.phase.done == 7)
    requires m' == m.Do(Remove(n)).(phase := m'.phase)
    requires Inert(Remove(n)) ||
             (&& 0 < |m.log| == m.synced
              && n != ManifestFile(LastSequence(m.log))
              && n != IndexFile(m.log[|m.log| - 1].payload.revision.generation)
              && n != StateFile(m.log[|m.log| - 1].payload.revision.generation))
    ensures ImagesOk(k, m') && m'.Dir() == Apply(Remove(n), m.Dir()) && Shows(k, m'.Dir(), m'.log, |m'.log|)
  {
    var op := Remove(n);
    DirAfter(m, op);
    DirOk(k, m);
    forall u: Dir | Image(m.durable, m.pending, u) ensures ImageOk(k, m', u) && ImageOk(k, m', Apply(op, u)) {
      RemoveImage(k, m, n, u);
    }
    ImagesAfter(k, m, op, m');
    RemoveImage(k, m, n, m.Dir());
  }

  lemma RemoveImage(k: Codec, m: Machine, n: Name, u: Dir)
    requires m.synced <= |m.log| && ImageOk(k, m, u)
    requires Inert(Remove(n)) ||
             (&& 0 < |m.log| == m.synced
              && n != ManifestFile(LastSequence(m.log))
              && n != IndexFile(m.log[|m.log| - 1].payload.revision.generation)
              && n != StateFile(m.log[|m.log| - 1].payload.revision.generation))
    ensures Within(k, Apply(Remove(n), u), m.used)
    ensures ShowsSome(k, Apply(Remove(n), u), m.log, m.synced)
    ensures Shows(k, u, m.log, |m.log|) ==> Shows(k, Apply(Remove(n), u), m.log, |m.log|)
  {
    hide PayloadAt;
    assert forall s: nat, g: Generation :: MentionsAt(k, Apply(Remove(n), u), s, g) ==> MentionsAt(k, u, s, g);
    if Inert(Remove(n)) {
      InertKeeps(k, Remove(n), u);
      ShowsEqually(k, u, Apply(Remove(n), u), m.log, m.synced);
    } else {
      assert Shows(k, u, m.log, |m.log|);
      RemoveSparesNewest(k, n, u, m.log[|m.log| - 1].payload);
      assert Shows(k, Apply(Remove(n), u), m.log, |m.log|);
    }
  }

  lemma RemoveSparesNewest(k: Codec, n: Name, u: Dir, p: Payload)
    requires Newest(k, u, p)
    requires n != ManifestFile(p.revision.sequence)
    requires n != IndexFile(p.revision.generation) && n != StateFile(p.revision.generation)
    ensures Newest(k, Apply(Remove(n), u), p)
  {
    var u' := Apply(Remove(n), u);
    assert forall s: nat :: PayloadAt(k, u', s) == PayloadAt(k, u, s) || PayloadAt(k, u', s) == None;
  }

  lemma StartCollectKeeps(k: Codec, m: Machine, keep: set<nat>)
    requires Inv(k, m) && Enabled(k, m, StartCollect(keep))
    ensures Inv(k, Next(k, m, StartCollect(keep)))
  {
    var m' := Next(k, m, StartCollect(keep));
    var last := LastSequence(m.log);
    assert PayloadAt(k, m.Dir(), last).Some?;
    if keep != {} {
      var t :| t in keep;
      assert t <= last;
    }
    assert last in keep;
    assert forall s: nat :: ManifestFile(s) in m.Dir() ==> s in ManifestSequences(m.Dir());
    forall v: Dir | Image(m'.durable, m'.pending, v) ensures ImageOk(k, m', v) {
      assert ImageOk(k, m, v);
    }
  }

  lemma UnlinkManifestKeeps(k: Codec, m: Machine, s: nat)
    requires Inv(k, m) && Enabled(k, m, UnlinkManifest(s))
    ensures Inv(k, Next(k, m, UnlinkManifest(s)))
  {
    var m' := Next(k, m, UnlinkManifest(s));
    RemoveKeeps(k, m, ManifestFile(s), m');
    forall t | t in m.phase.keep ensures PayloadAt(k, m'.Dir(), t).Some? {
      assert PayloadAt(k, m.Dir(), t).Some? && t != s;
    }
  }

  lemma StartSweepKeeps(k: Codec, m: Machine)
    requires Inv(k, m) && Enabled(k, m, StartSweep)
    ensures Inv(k, Next(k, m, StartSweep))
  {
    var m' := Next(k, m, StartSweep);
    var gens := RetainedGenerations(k, m.Dir(), m.phase.keep);
    forall s: nat | ManifestFile(s) in m.Dir()
      ensures PayloadAt(k, m.Dir(), s).Some? && PayloadAt(k, m.Dir(), s).value.revision.generation in gens
    {
      assert s in m.phase.keep;
      assert ManifestAt(k, m.Dir(), s).Some?;
    }
    assert ManifestFile(LastSequence(m.log)) in m.Dir();
    forall v: Dir | Image(m'.durable, m'.pending, v) ensures ImageOk(k, m', v) {
      assert ImageOk(k, m, v);
    }
  }

  lemma UnlinkDataKeeps(k: Codec, m: Machine, n: Name)
    requires Inv(k, m) && Enabled(k, m, UnlinkData(n))
    ensures Inv(k, Next(k, m, UnlinkData(n)))
  {
    hide ImagesOk, Chain, Shows, PayloadAt;
    var m' := Next(k, m, UnlinkData(n));
    RemoveKeeps(k, m, n, m');
    RemoveKeepsRetained(k, m.Dir(), n, m.phase.generations);
  }

  lemma RemoveKeepsRetained(k: Codec, d: Dir, n: Name, generations: set<Generation>)
    requires AllRetained(k, d, generations) && IsGenerationData(n) && n.generation !in generations
    ensures AllRetained(k, Apply(Remove(n), d), generations)
  {
    var d' := Apply(Remove(n), d);
    forall s: nat | ManifestFile(s) in d' ensures PayloadAt(k, d', s) == PayloadAt(k, d, s) {
      assert PayloadAt(k, d, s).Some?;
    }
  }

  lemma FinishSweepKeeps(k: Codec, m: Machine)
    requires Inv(k, m) && Enabled(k, m, FinishSweep)
    ensures Inv(k, Next(k, m, FinishSweep))
  {
    SyncKeeps(k, m, Next(k, m, FinishSweep));
  }

  /** Deleting a temporary or a legacy file. */
  lemma TidyKeeps(k: Codec, m: Machine, act: Action)
    requires Inv(k, m) && Enabled(k, m, act) && (act.CleanUp? || act.RetireLegacy?)
    ensures Inv(k, Next(k, m, act))
  {
    RemoveKeeps(k, m, act.name, Next(k, m, act));
  }

  /** Every step of the running system keeps the invariant. */
  lemma StepKeeps(k: Codec, a: Machine, b: Machine)
    requires Inv(k, a) && Step(k, a, b)
    ensures Inv(k, b)
  {
    hide Inv, Enabled, Next;
    var act :| Enabled(k, a, act) && b == Next(k, a, act);
    match act
    case Begin(c, base) => BeginKeeps(k, a, c, base);
    case WriteStep => WriteKeeps(k, a);
    case StartCollect(keep) => StartCollectKeeps(k, a, keep);
    case UnlinkManifest(s) => UnlinkManifestKeeps(k, a, s);
    case StartSweep => StartSweepKeeps(k, a);
    case UnlinkData(n) => UnlinkDataKeeps(k, a, n);
    case FinishSweep => FinishSweepKeeps(k, a);
    case Abort => AbortKeeps(k, a);
    case CleanUp(n) => TidyKeeps(k, a, act);
    case RetireLegacy(n) => TidyKeeps(k, a, act);
    case Pause => PauseKeeps(k, a);
  }

  lemma PauseKeeps(k: Codec, m: Machine)
    requires Inv(k, m)
    ensures Inv(k, Next(k, m, Pause))
  {
    hide Inv;
  }

  lemma AbortKeeps(k: Codec, m: Machine)
    requires Inv(k, m)
    ensures Inv(k, Next(k, m, Abort))
  {
    var m' := m.(phase := Idle);
    forall v: Dir | Image(m'.durable, m'.pending, v) ensures ImageOk(k, m', v) {
      assert ImageOk(k, m, v);
    }
  }

  // ------------------------------------------------------------------------------ power failure

  /** A power failure leaves image `v`; the log is cut back to the entry `v` shows. */
  ghost predicate PowerFailure(k: Codec, a: Machine, b: Machine) {
    exists v: Dir, j: nat ::
      && Image(a.durable, a.pending, v)
      && a.synced <= j <= |a.log|
      && Shows(k, v, a.log, j)
      && b == Machine(v, [], Idle, a.used, a.log[..j], j)
  }

  /** Whatever was lost, the store recovers to a machine state, so commits can go on from there. */
  lemma PowerFailureKeeps(k: Codec, a: Machine, b: Machine)
    requires Inv(k, a) && PowerFailure(k, a, b)
    ensures Inv(k, b)
  {
    var v: Dir, j: nat :| Image(a.durable, a.pending, v) && a.synced <= j <= |a.log| && Shows(k, v, a.log, j)
                          && b == Machine(v, [], Idle, a.used, a.log[..j], j);
    assert ImageOk(k, a, v);
    ChainPrefix(a.log, j);
    assert Shows(k, v, b.log, j);
  }

  /** Every image a power failure can leave is one the machine recovers from. */
  lemma PowerFailureTotal(k: Codec, a: Machine, v: Dir)
    requires Inv(k, a) && Image(a.durable, a.pending, v)
    ensures exists b: Machine :: PowerFailure(k, a, b) && b.Dir() == v
  {
    hide PayloadAt, Chain, PhaseOk, Shows, Image, Apply;
    assert ImageOk(k, a, v);
    var j: nat :| a.synced <= j <= |a.log| && Shows(k, v, a.log, j);
    var b := Machine(v, [], Idle, a.used, a.log[..j], j);
    assert PowerFailure(k, a, b);
  }

  // ------------------------------------------------------------------------------------ whole runs

  ghost predicate Continues(k: Codec, run: seq<Machine>, i: nat)
    requires i + 1 < |run|
  {
    Step(k, run[i], run[i + 1]) || PowerFailure(k, run[i], run[i + 1])
  }

  /** A run of the system in which any step may be a power failure. */
  ghost predicate CrashyRun(k: Codec, run: seq<Machine>) {
    forall i: nat :: i + 1 < |run| ==> Continues(k, run, i)
  }

  lemma {:induction false} CrashyRunKeeps(k: Codec, run: seq<Machine>, i: nat)
    requires CrashyRun(k, run) && i < |run| && Inv(k, run[0])
    ensures Inv(k, run[i])
  {
    if i > 0 {
      CrashyRunKeeps(k, run, i - 1);
      assert Continues(k, run, i - 1);
      var a, b := run[i - 1], run[i];
      if Step(k, a, b) {
        StepKeeps(k, a, b);
      } else {
        PowerFailureKeeps(k, a, b);
      }
    }
  }

  /** The first state of the system satisfies the invariant. */
  lemma StartHolds(k: Codec, m: Machine)
    requires IsStart(k, m)
    ensures Inv(k, m)
  {
    forall v: Dir | Image(m.durable, m.pending, v) ensures ImageOk(k, m, v) {
      assert Shows(k, v, m.log, 0);
    }
  }

  /** So every state of every run from it does. */
  lemma StartedRunKeeps(k: Codec, run: seq<Machine>, i: nat)
    requires CrashyRun(k, run) && i < |run| && IsStart(k, run[0])
    ensures Inv(k, run[0]) && Inv(k, run[i])
  {
    StartHolds(k, run[0]);
    CrashyRunKeeps(k, run, i);
  }

  /**
    Crash atomicity over whole runs: from any state a run reaches, any image a power failure can
    leave shows one whole published generation, never an older one than the last durable; and when
    nothing was published since the last fsync it shows exactly that one.
    */
  lemma CrashAtomicity(k: Codec, run: seq<Machine>, i: nat, v: Dir)
    requires CrashyRun(k, run) && i < |run| && Inv(k, run[0])
    requires Image(run[i].durable, run[i].pending, v)
    ensures run[i].synced <= |run[i].log|
    ensures ShowsSome(k, v, run[i].log, run[i].synced)
    ensures 0 < run[i].synced == |run[i].log| ==> Newest(k, v, run[i].log[|run[i].log| - 1].payload)
  {
    CrashyRunKeeps(k, run, i);
    assert ImageOk(k, run[i], v);
  }

  /**
    No lost update: in any run each loaded writer's commit directly follows the generation it had
    loaded, and of several writers loaded from one generation at most one ever commits.
    */
  lemma NoLostUpdate(k: Codec, run: seq<Machine>, i: nat, x: nat, y: nat)
    requires CrashyRun(k, run) && i < |run| && Inv(k, run[0])
    requires 0 < x < |run[i].log| && 0 < y < |run[i].log|
    requires run[i].log[x].base.Some? && run[i].log[y].base == run[i].log[x].base
    ensures run[i].log[x].base.value == run[i].log[x - 1].payload.revision
    ensures x == y
  {
    CrashyRunKeeps(k, run, i);
    var log := run[i].log;
    assert Chain(log);
    hide Inv;
    assert Follows(log, x) && Follows(log, y);
    if x < y {
      ChainRises(log, x - 1, y - 1);
    } else {
      ChainRises(log, y - 1, x - 1);
    }
  }

  // ------------------------------------------------------------------------------- across instants

  lemma StepKeepsLog(k: Codec, a: Machine, b: Machine)
    requires Step(k, a, b) && a.synced <= |a.log|
    ensures a.log <= b.log && a.synced <= b.synced
  {
    hide WriteOp, Machine.Dir;
    var act :| Enabled(k, a, act) && b == Next(k, a, act);
  }

  /** What is once durable stays: no power failure cuts a synced entry off the log. */
  lemma {:induction false} DurableStays(k: Codec, run: seq<Machine>, i: nat, j: nat)
    requires CrashyRun(k, run) && i <= j < |run| && Inv(k, run[0])
    ensures run[i].synced <= run[j].synced <= |run[j].log|
    ensures run[i].synced <= |run[i].log| && run[i].log[..run[i].synced] <= run[j].log
    decreases j - i
  {
    hide Inv, Step, PowerFailure;
    CrashyRunKeeps(k, run, i);
    SyncedWithinLog(k, run[i]);
    if i < j {
      DurableStays(k, run, i, j - 1);
      assert Continues(k, run, j - 1);
      CrashyRunKeeps(k, run, j);
      SyncedWithinLog(k, run[j]);
      if Step(k, run[j - 1], run[j]) {
        StepKeepsLog(k, run[j - 1], run[j]);
      } else {
        FailureKeepsDurable(k, run[j - 1], run[j]);
      }
    }
  }

  lemma SyncedWithinLog(k: Codec, m: Machine)
    requires Inv(k, m)
    ensures m.synced <= |m.log|
  {
  }

  lemma FailureKeepsDurable(k: Codec, a: Machine, b: Machine)
    requires PowerFailure(k, a, b)
    ensures a.synced <= b.synced == |b.log| <= |a.log| && a.log[..a.synced] <= b.log
  {
    hide Shows, Image;
  }

  /**
    No lost update across a whole run, power failures included: of all writers that loaded one
    revision, at any time, at most one ever becomes durable.
    */
  lemma OneDurableHeir(k: Codec, run: seq<Machine>, i: nat, j: nat, x: nat, y: nat)
    requires CrashyRun(k, run) && i < |run| && j < |run| && Inv(k, run[0])
    requires 0 < x < run[i].synced <= |run[i].log| && 0 < y < run[j].synced <= |run[j].log|
    requires run[i].log[x].base.Some? && run[j].log[y].base == run[i].log[x].base
    ensures x == y && run[i].log[x] == run[j].log[y]
  {
    hide Inv;
    var first, last := if i <= j then i else j, if i <= j then j else i;
    DurableStays(k, run, first, last);
    assert run[first].log[..run[first].synced] == run[last].log[..run[first].synced];
    assert run[i].log[x] == run[last].log[x] && run[j].log[y] == run[last].log[y];
    NoLostUpdate(k, run, last, x, y);
  }

  // --------------------------------------------------------------------------- from the very start

  /** Crash atomicity for every run that begins in a directory where nothing was published. */
  lemma CrashAtomicityFromStart(k: Codec, run: seq<Machine>, i: nat, v: Dir)
    requires CrashyRun(k, run) && i < |run| && IsStart(k, run[0])
    requires Image(run[i].durable, run[i].pending, v)
    ensures run[i].synced <= |run[i].log| && ShowsSome(k, v, run[i].log, run[i].synced)
    ensures 0 < run[i].synced == |run[i].log| ==> Newest(k, v, run[i].log[|run[i].log| - 1].payload)
  {
    hide Inv;
    StartedRunKeeps(k, run, i);
    CrashAtomicity(k, run, i, v);
  }

  /** And no lost update. */
  lemma OneDurableHeirFromStart(k: Codec, run: seq<Machine>, i: nat, j: nat, x: nat, y: nat)
    requires CrashyRun(k, run) && i < |run| && j < |run| && IsStart(k, run[0])
    requires 0 < x < run[i].synced <= |run[i].log| && 0 < y < run[j].synced <= |run[j].log|
    requires run[i].log[x].base.Some? && run[j].log[y].base == run[i].log[x].base
    ensures run[i].log[x].base.value == run[i].log[x - 1].payload.revision
    ensures x == y && run[i].log[x] == run[j].log[y]
  {
    hide Inv;
    StartedRunKeeps(k, run, 0);
    NoLostUpdate(k, run, i, x, x);
    OneDurableHeir(k, run, i, j, x, y);
  }
}
