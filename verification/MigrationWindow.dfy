/**
  When a power failure during a migration can hurt.  The manifest rename publishes, but until the
  directory fsync a power failure may keep that rename and lose the data renames it relies on.  Before
  the rename the legacy pair is all there is; after the fsync the snapshot is safe; in between lies
  the window.
  */
module MigrationWindow {
  import opened Common
  import opened SnapshotProtocol
  import opened SnapshotDurability
  import opened LegacyMigration

  /** Not between the first manifest rename and the fsync that makes it last. */
  predicate OutsideWindow(m: Machine) {
    m.log == [] || 0 < m.synced
  }

  // --------------------------------------------------------------------------------- crash images

  /** All pending operations may be lost. */
  lemma {:induction false} AllLost(durable: Dir, pending: seq<Op>)
    ensures Image(durable, pending, durable)
  {
    if pending != [] {
      AllLost(durable, pending[..|pending| - 1]);
      assert KeptOrLost(pending[|pending| - 1], durable, durable);
    }
  }

  /** All but any one of them may be lost. */
  lemma {:induction false} OneKept(durable: Dir, pending: seq<Op>, i: nat)
    requires i < |pending|
    ensures Image(durable, pending, Apply(pending[i], durable))
  {
    var earlier, last := pending[..|pending| - 1], pending[|pending| - 1];
    if i == |earlier| {
      AllLost(durable, earlier);
      assert KeptOrLost(last, durable, Apply(last, durable));
    } else {
      OneKept(durable, earlier, i);
      assert KeptOrLost(last, Apply(pending[i], durable), Apply(pending[i], durable));
    }
  }

  predicate Spares(op: Op, n: Name) {
    match op
    case Put(name, _) => name != n
    case Move(src, dst, _) => src != n && dst != n
    case Remove(name) => name != n
    case Sync => true
  }

  ghost predicate AllSpare(pending: seq<Op>, n: Name) {
    forall i :: 0 <= i < |pending| ==> Spares(pending[i], n)
  }

  lemma {:induction false} ImageSpares(durable: Dir, pending: seq<Op>, d: Dir, n: Name)
    requires Image(durable, pending, d) && AllSpare(pending, n)
    ensures n in d <==> n in durable
    ensures n in d ==> d[n] == durable[n]
  {
    if pending != [] {
      var earlier, op := pending[..|pending| - 1], pending[|pending| - 1];
      var u: Dir :| Image(durable, earlier, u) && KeptOrLost(op, u, d);
      ImageSpares(durable, earlier, u, n);
      assert Spares(op, n);
    }
  }

  // ------------------------------------------------------------- what holds until the first fsync

  ghost predicate NoManifest(d: Dir) {
    forall s: nat :: ManifestFile(s) !in d
  }

  /** No pending operation touches a manifest or the legacy pair. */
  ghost predicate NothingPublished(pending: seq<Op>) {
    forall n: Name :: n.ManifestFile? || IsLegacy(n) ==> AllSpare(pending, n)
  }

  /** Keeping pending operation `i` alone lists a manifest whose data is not there. */
  ghost predicate TornAt(k: Codec, m: Machine, i: nat)
    requires i < |m.pending|
  {
    && ManifestSequences(Apply(m.pending[i], m.durable)) != {}
    && NothingComplete(k, Apply(m.pending[i], m.durable))
    && Spares(m.pending[i], LegacyIndex) && Spares(m.pending[i], LegacyState)
  }

  ghost predicate Torn(k: Codec, m: Machine) {
    exists i: nat :: i < |m.pending| && TornAt(k, m, i)
  }

  /** Until something is durable, the disk holds the legacy pair and no manifest. */
  ghost predicate Early<V(!new)>(k: Codec, x: IndexCodec<V>, m: Machine, v: V) {
    m.synced == 0 ==>
      && NoManifest(m.durable) && LegacyIntact(x, m.durable, v)
      && (m.phase.Writing? ==> IndexFile(m.phase.commit.generation) !in m.durable)
      && (if m.log == [] then NothingPublished(m.pending) else Torn(k, m))
  }

  lemma StartIsEarly<V(!new)>(k: Codec, x: IndexCodec<V>, m: Machine, v: V)
    requires IsStart(k, m) && LegacyIntact(x, m.durable, v)
    ensures Early(k, x, m, v)
  {
  }

  lemma EarlyByOp<V(!new)>(k: Codec, x: IndexCodec<V>, a: Machine, op: Op, b: Machine, v: V)
    requires Early(k, x, a, v) && b.durable == a.durable && b.pending == a.pending + [op] && b.log == a.log && b.synced == a.synced
    requires forall n: Name :: n.ManifestFile? || IsLegacy(n) ==> Spares(op, n)
    requires b.phase.Writing? ==> a.phase.Writing? && b.phase.commit == a.phase.commit
    ensures Early(k, x, b, v)
  {
    if b.synced == 0 && b.log != [] {
      var i: nat :| i < |a.pending| && TornAt(k, a, i);
      assert TornAt(k, b, i);
    }
  }

  lemma EarlyByPhase<V(!new)>(k: Codec, x: IndexCodec<V>, a: Machine, b: Machine, v: V)
    requires Early(k, x, a, v) && b.durable == a.durable && b.pending == a.pending && b.log == a.log && b.synced == a.synced
    requires b.synced == 0 && b.phase.Writing? ==> IndexFile(b.phase.commit.generation) !in b.durable
    ensures Early(k, x, b, v)
  {
    if b.synced == 0 && b.log != [] {
      var i: nat :| i < |a.pending| && TornAt(k, a, i);
      assert TornAt(k, b, i);
    }
  }

  /** A fresh generation has no data on disk. */
  lemma BeginIsEarly<V(!new)>(k: Codec, x: IndexCodec<V>, m: Machine, c: Commit, base: Option<Revision>, v: V)
    requires Inv(k, m) && Early(k, x, m, v) && Enabled(k, m, Begin(c, base))
    ensures Early(k, x, Next(k, m, Begin(c, base)), v)
  {
    hide Early, Chain, Shows, PhaseOk, IsHex;
    AllLost(m.durable, m.pending);
    assert ImageOk(k, m, m.durable);
    EarlyByPhase(k, x, m, Next(k, m, Begin(c, base)), v);
  }

  /** The first manifest rename, all else lost. */
  lemma PublicationIsTorn(k: Codec, c: Commit, d: Dir)
    requires k.Lossless() && IsGeneration(c.generation) && 1 <= c.sequence
    requires NoManifest(d) && IndexFile(c.generation) !in d
    ensures ManifestSequences(Apply(WriteOp(k, c, 5), d)) != {} && NothingComplete(k, Apply(WriteOp(k, c, 5), d))
  {
    PublishedManifest(k, c, d);
    hide WriteOp, IsGeneration;
    var image := Apply(WriteOp(k, c, 5), d);
    assert c.sequence in ManifestSequences(image);
    forall s: nat ensures PayloadAt(k, image, s) == None {
      if s != c.sequence {
        assert PayloadAt(k, d, s) == None;
      }
    }
  }

  lemma PublishIsEarly<V(!new)>(k: Codec, x: IndexCodec<V>, m: Machine, v: V)
    requires Inv(k, m) && Early(k, x, m, v) && m.phase.Writing? && m.phase.done == 5
    ensures Early(k, x, Next(k, m, WriteStep), v)
  {
    hide ImagesOk, Chain, Shows, IsHex, Staged, NothingPublished;
    var m', c := Next(k, m, WriteStep), m.phase.commit;
    if m.synced == 0 {
      PublicationIsTorn(k, c, m.durable);
      assert m'.pending[|m.pending|] == WriteOp(k, c, 5);
      assert TornAt(k, m', |m.pending|);
    }
  }

  lemma WriteIsEarly<V(!new)>(k: Codec, x: IndexCodec<V>, m: Machine, v: V)
    requires Inv(k, m) && Early(k, x, m, v) && Enabled(k, m, WriteStep)
    ensures Early(k, x, Next(k, m, WriteStep), v)
  {
    hide ImagesOk, Chain, Shows, IsHex, Staged, Early;
    if m.phase.done < 5 {
      EarlyByOp(k, x, m, WriteOp(k, m.phase.commit, m.phase.done), Next(k, m, WriteStep), v);
    } else if m.phase.done == 5 {
      PublishIsEarly(k, x, m, v);
    } else {
      LateIsEarly(k, x, Next(k, m, WriteStep), v);
    }
  }

  lemma LateIsEarly<V(!new)>(k: Codec, x: IndexCodec<V>, m: Machine, v: V)
    requires 0 < m.synced
    ensures Early(k, x, m, v)
  {
  }

  lemma StepIsEarly<V(!new)>(k: Codec, x: IndexCodec<V>, a: Machine, b: Machine, v: V)
    requires Inv(k, a) && Early(k, x, a, v) && Step(k, a, b)
    ensures Early(k, x, b, v)
  {
    hide ImagesOk, Chain, Shows, IsHex, Staged, Early, WriteOp, AllRetained, IsRetained;
    var act :| Enabled(k, a, act) && b == Next(k, a, act);
    match act
    case Begin(c, base) => BeginIsEarly(k, x, a, c, base, v);
    case WriteStep => WriteIsEarly(k, x, a, v);
    case CleanUp(n) => EarlyByOp(k, x, a, Remove(n), b, v);
    case Abort => EarlyByPhase(k, x, a, b, v);
    case Pause =>
    case _ => LateIsEarly(k, x, b, v);
  }

  /** A power failure outside the window leaves the legacy pair, or a durable snapshot. */
  lemma FailureIsEarly<V(!new)>(k: Codec, x: IndexCodec<V>, a: Machine, b: Machine, v: V)
    requires Early(k, x, a, v) && PowerFailure(k, a, b) && OutsideWindow(a)
    ensures Early(k, x, b, v)
  {
    hide Shows;
    if b.synced == 0 {
      assert a.log == [] && Image(a.durable, a.pending, b.durable);
      forall s: nat ensures ManifestFile(s) !in b.durable {
        ImageSpares(a.durable, a.pending, b.durable, ManifestFile(s));
      }
      ImageSpares(a.durable, a.pending, b.durable, LegacyIndex);
      ImageSpares(a.durable, a.pending, b.durable, LegacyState);
    }
  }

  /** So does one inside the window whose image still loads the value. */
  lemma LoadableIsEarly<V(!new)>(k: Codec, x: IndexCodec<V>, a: Machine, b: Machine, v: V)
    requires PowerFailure(k, a, b) && Loads(k, x, b.Dir(), v)
    ensures Early(k, x, b, v)
  {
    if b.synced == 0 {
      assert NothingComplete(k, b.durable);
      forall s: nat ensures ManifestFile(s) !in b.durable {
        assert s !in ManifestSequences(b.durable);
      }
    }
  }

  // ---------------------------------------------------------------------------------- whole runs

  /** A power failure at this point, if there is one, strikes outside the window or leaves an image that loads `v`. */
  ghost predicate FailsSafely<V(!new)>(k: Codec, x: IndexCodec<V>, run: seq<Machine>, v: V, i: nat)
    requires i + 1 < |run|
  {
    Step(k, run[i], run[i + 1]) || OutsideWindow(run[i]) || Loads(k, x, run[i + 1].Dir(), v)
  }

  ghost predicate PublishesCopies<V(!new)>(x: IndexCodec<V>, run: seq<Machine>, v: V) {
    forall i :: 0 <= i < |run| ==> PublishesOnly(x, run[i].log, 0, v)
  }

  /**
    Migration attempts - stopped, failed and repeated in any way, by crashes and by power failures -
    on a directory where nothing was published and whose legacy pair holds `v`.  Only a power failure in
    the window that did lose the value ends such a run.
    */
  ghost predicate Migrating<V(!new)>(k: Codec, x: IndexCodec<V>, run: seq<Machine>, v: V) {
    && run != [] && CrashyRun(k, run) && IsStart(k, run[0])
    && LegacyIntact(x, run[0].durable, v) && PublishesCopies(x, run, v)
    && forall i: nat :: i + 1 < |run| ==> FailsSafely(k, x, run, v, i)
  }

  lemma {:induction false} MigratingIsEarly<V(!new)>(k: Codec, x: IndexCodec<V>, run: seq<Machine>, v: V, i: nat)
    requires Migrating(k, x, run, v) && i < |run|
    ensures Inv(k, run[i]) && Early(k, x, run[i], v)
  {
    hide Inv, Early, Step, PowerFailure, LegacyIntact, Loads;
    StartedRunKeeps(k, run, i);
    if i == 0 {
      StartIsEarly(k, x, run[0], v);
    } else {
      MigratingIsEarly(k, x, run, v, i - 1);
      assert SnapshotDurability.Continues(k, run, i - 1) && FailsSafely(k, x, run, v, i - 1);
      if Step(k, run[i - 1], run[i]) {
        StepIsEarly(k, x, run[i - 1], run[i], v);
      } else if OutsideWindow(run[i - 1]) {
        FailureIsEarly(k, x, run[i - 1], run[i], v);
      } else {
        LoadableIsEarly(k, x, run[i - 1], run[i], v);
      }
    }
  }

  lemma UnpublishedLoads<V(!new)>(k: Codec, x: IndexCodec<V>, m: Machine, v: V)
    requires Early(k, x, m, v) && m.synced == 0 && m.log == []
    ensures AllImagesLoad(k, x, m, v)
  {
    forall d: Dir | Image(m.durable, m.pending, d) ensures Loads(k, x, d, v) {
      forall s: nat ensures ManifestFile(s) !in d {
        ImageSpares(m.durable, m.pending, d, ManifestFile(s));
      }
      ImageSpares(m.durable, m.pending, d, LegacyIndex);
      ImageSpares(m.durable, m.pending, d, LegacyState);
      assert ManifestSequences(d) == {};
    }
  }

  /** In the window some image lists a manifest and nothing complete: no value loads, legacy pair or not. */
  lemma WindowImage<V(!new)>(k: Codec, x: IndexCodec<V>, m: Machine, v: V) returns (image: Dir)
    requires Early(k, x, m, v) && !OutsideWindow(m)
    ensures Image(m.durable, m.pending, image) && LegacyIntact(x, image, v)
    ensures forall w: V :: !Loads(k, x, image, w)
  {
    var i: nat :| i < |m.pending| && TornAt(k, m, i);
    OneKept(m.durable, m.pending, i);
    image := Apply(m.pending[i], m.durable);
  }

  /**
    The exact limit of the migration.  In every state of every such run, each image a power failure
    could leave still loads the value if and only if the state is outside the window; the directory as
    running processes see it always does.
    */
  lemma SafeExactlyOutsideWindow<V(!new)>(k: Codec, x: IndexCodec<V>, run: seq<Machine>, v: V, i: nat)
    requires Migrating(k, x, run, v) && i < |run|
    ensures AllImagesLoad(k, x, run[i], v) <==> OutsideWindow(run[i])
    ensures Loads(k, x, run[i].Dir(), v)
  {
    hide Early, Step, Loads, Image;
    MigratingIsEarly(k, x, run, v, i);
    var m := run[i];
    assert PublishesOnly(x, m.log, 0, v);
    EveryStateLoads(k, x, m, v);
    if 0 < m.synced {
      DurableCopyLoads(k, x, m, v);
    } else if m.log == [] {
      UnpublishedLoads(k, x, m, v);
    } else {
      var image := WindowImage(k, x, m, v);
      assert !Loads(k, x, image, v);
    }
  }

  lemma EveryStateLoads<V(!new)>(k: Codec, x: IndexCodec<V>, m: Machine, v: V)
    requires Inv(k, m) && Early(k, x, m, v) && PublishesOnly(x, m.log, 0, v)
    ensures Loads(k, x, m.Dir(), v)
  {
    if m.log == [] {
      UnpublishedLoads(k, x, m, v);
      DirIsImage(m.durable, m.pending);
    } else {
      assert Shows(k, m.Dir(), m.log, |m.log|);
      assert EntryReads(x, m.log[|m.log| - 1], v);
    }
  }

  // ------------------------------------------------------------------------- the window is reached

  /** The first states of a migration: begin, then one write step after another. */
  function FirstSteps(k: Codec, start: Machine, c: Commit, i: nat): Machine {
    if i == 0 then start
    else if i == 1 then Next(k, start, Begin(c, None))
    else Next(k, FirstSteps(k, start, c, i - 1), WriteStep)
  }

  lemma {:induction false} FirstStepsShape(k: Codec, start: Machine, c: Commit, i: nat)
    requires 1 <= i <= 7 && start.log == [] && start.synced == 0
    ensures var m := FirstSteps(k, start, c, i);
            && m.phase == Writing(c, None, i - 1) && m.synced == 0
            && m.log == (if i == 7 then [Entry(c.ToPayload(), None)] else [])
  {
    if i > 1 {
      FirstStepsShape(k, start, c, i - 1);
    }
  }

  /**
    Every migration passes through the window: its eighth state has renamed the manifest and not yet
    fsynced, and one of its images refuses every load although the legacy pair is whole.
    */
  lemma WindowIsReached<V(!new)>(k: Codec, x: IndexCodec<V>, start: Machine, c: Commit, v: V)
    returns (run: seq<Machine>, image: Dir)
    requires IsStart(k, start) && LegacyIntact(x, start.durable, v)
    requires c.sequence == 1 && IsGeneration(c.generation) && c.generation !in start.used
    requires x.read(c.index, c.state) == Some(v)
    ensures Migrating(k, x, run, v) && run[0] == start && |run| == 8 && !OutsideWindow(run[7])
    ensures Image(run[7].durable, run[7].pending, image) && LegacyIntact(x, image, v)
    ensures forall w: V :: !Loads(k, x, image, w)
  {
    run := seq(8, i requires 0 <= i < 8 => FirstSteps(k, start, c, i));
    hide LegacyIntact, Early, IsHex;
    forall i: nat | i + 1 < |run| ensures Step(k, run[i], run[i + 1]) {
      FirstStepTaken(k, start, c, i);
    }
    forall i | 0 <= i < |run| ensures PublishesOnly(x, run[i].log, 0, v) {
      if i > 0 {
        FirstStepsShape(k, start, c, i);
      }
    }
    forall i: nat | i + 1 < |run| ensures SnapshotDurability.Continues(k, run, i) && FailsSafely(k, x, run, v, i) {
      assert Step(k, run[i], run[i + 1]);
    }
    MigratingIsEarly(k, x, run, v, 7);
    FirstStepsShape(k, start, c, 7);
    image := WindowImage(k, x, run[7], v);
  }

  lemma FirstStepTaken(k: Codec, start: Machine, c: Commit, i: nat)
    requires IsStart(k, start) && i < 7
    requires c.sequence == 1 && IsGeneration(c.generation) && c.generation !in start.used
    ensures Step(k, FirstSteps(k, start, c, i), FirstSteps(k, start, c, i + 1))
  {
    hide IsHex;
    if i == 0 {
      assert Enabled(k, start, Begin(c, None));
    } else {
      FirstStepsShape(k, start, c, i);
      assert Enabled(k, FirstSteps(k, start, c, i), WriteStep);
    }
  }
}
