/**
  The commit protocol of the snapshot store, one file operation per step.

  A directory maps names to immutable contents.  The machine keeps what is durable apart from the
  operations issued since the last directory fsync, because a power failure may lose any subset of
  those.  Writers are serialised by the persistence lock, so one `phase` describes the only writer.
  */
module SnapshotProtocol {
  import opened Common

  const RETAIN_GENERATIONS: nat := 2
  const MAX_SEQUENCE: nat := 99_999_999_999_999_999_999

  type Generation = string

  predicate IsHex(s: string, length: nat) {
    |s| == length && forall i :: 0 <= i < |s| ==> '0' <= s[i] <= '9' || 'a' <= s[i] <= 'f'
  }

  /** What `uuid4().hex` yields. */
  predicate IsGeneration(g: Generation) {
    IsHex(g, 32)
  }

  datatype Manifest = Manifest(sequence: nat, generation: Generation, indexDigest: Digest, stateDigest: Digest) {
    /** What the manifest model admits. */
    predicate WellShaped() {
      1 <= sequence && IsGeneration(generation) && IsHex(indexDigest, 64) && IsHex(stateDigest, 64)
    }
  }

  datatype Name =
    | ManifestFile(sequence: nat)
    | ManifestTemp(id: string)
    | IndexFile(generation: Generation)
    | StateFile(generation: Generation)
    | IndexTemp(generation: Generation)
    | StateTemp(generation: Generation)
    | LegacyIndex
    | LegacyState

  type Dir = map<Name, Bytes>

  // The hash function and the manifest's JSON codec.
  datatype Codec = Codec(sha: Bytes -> Digest, encode: Manifest -> Bytes, decode: Bytes -> Option<Manifest>) {
    ghost predicate Lossless() {
      && (forall m: Manifest :: m.WellShaped() ==> decode(encode(m)) == Some(m))
      && (forall b: Bytes :: IsHex(sha(b), 64))
    }
  }

  datatype Revision = Revision(sequence: nat, generation: Generation)

  datatype Payload = Payload(index: Bytes, state: Bytes, revision: Revision)

  // ---------------------------------------------------------------- reading a quiescent directory

  /** The manifest stored at `s`, provided it parses and repeats the sequence in its own file name. */
  function ManifestAt(k: Codec, d: Dir, s: nat): Option<Manifest> {
    if ManifestFile(s) !in d then None
    else match k.decode(d[ManifestFile(s)])
      case None => None
      case Some(m) => if m.sequence == s then Some(m) else None
  }

  function DataFor(k: Codec, d: Dir, m: Manifest): Option<Payload> {
    if IndexFile(m.generation) in d && StateFile(m.generation) in d
       && k.sha(d[StateFile(m.generation)]) == m.stateDigest
       && k.sha(d[IndexFile(m.generation)]) == m.indexDigest
    then Some(Payload(d[IndexFile(m.generation)], d[StateFile(m.generation)], Revision(m.sequence, m.generation)))
    else None
  }

  /** The complete snapshot committed under sequence `s`, if there is one. */
  function PayloadAt(k: Codec, d: Dir, s: nat): Option<Payload> {
    match ManifestAt(k, d, s)
    case None => None
    case Some(m) => DataFor(k, d, m)
  }

  ghost predicate NothingComplete(k: Codec, d: Dir) {
    forall s: nat :: PayloadAt(k, d, s) == None
  }

  /** `p` is the newest complete snapshot in `d`. */
  ghost predicate Newest(k: Codec, d: Dir, p: Payload) {
    && PayloadAt(k, d, p.revision.sequence) == Some(p)
    && forall s: nat :: s > p.revision.sequence ==> PayloadAt(k, d, s) == None
  }

  ghost predicate MentionsAt(k: Codec, d: Dir, s: nat, g: Generation) {
    ManifestFile(s) in d && k.decode(d[ManifestFile(s)]).Some? && k.decode(d[ManifestFile(s)]).value.generation == g
  }

  // ------------------------------------------------------------------------------ file operations

  datatype Op =
    | Put(name: Name, bytes: Bytes)
    | Move(src: Name, dst: Name, bytes: Bytes)
    | Remove(name: Name)
    | Sync

  function Apply(op: Op, d: Dir): Dir {
    match op
    case Put(n, b) => d[n := b]
    case Move(src, dst, b) => (d - {src})[dst := b]
    case Remove(n) => d - {n}
    case Sync => d
  }

  function ApplyAll(d: Dir, ops: seq<Op>): Dir {
    if ops == [] then d else Apply(ops[|ops| - 1], ApplyAll(d, ops[..|ops| - 1]))
  }

  predicate KeptOrLost(op: Op, u: Dir, v: Dir) {
    v == u || v == Apply(op, u)
  }

  /** `v` is what a power failure may leave: `durable` plus any subset of the pending operations. */
  ghost predicate Image(durable: Dir, pending: seq<Op>, v: Dir) {
    if pending == [] then v == durable
    else
      var earlier, op := pending[..|pending| - 1], pending[|pending| - 1];
      exists u: Dir :: Image(durable, earlier, u) && KeptOrLost(op, u, v)
  }

  // ---------------------------------------------------------------------------------- the machine

  datatype Commit = Commit(generation: Generation, sequence: nat, index: Bytes, state: Bytes, tempId: string) {
    function ToPayload(): Payload {
      Payload(index, state, Revision(sequence, generation))
    }
  }

  // One published generation, with the revision its writer had loaded (None: a fresh index).
  datatype Entry = Entry(payload: Payload, base: Option<Revision>)

  datatype Phase =
    | Idle
    | Writing(commit: Commit, base: Option<Revision>, done: nat)
    | Collecting(keep: set<nat>, todo: set<nat>)
    | Sweeping(generations: set<Generation>)

  // `log` lists the generations published so far; the first `synced` of them are known durable.
  datatype Machine = Machine(
    durable: Dir, pending: seq<Op>, phase: Phase,
    used: set<Generation>, log: seq<Entry>, synced: nat)
  {
    /** The directory as running processes see it. */
    function Dir(): Dir {
      ApplyAll(durable, pending)
    }

    function Do(op: Op): Machine {
      if op.Sync? then this.(durable := Dir(), pending := [], synced := |log|)
      else this.(pending := pending + [op])
    }
  }

  function ManifestOf(k: Codec, c: Commit): Manifest {
    Manifest(c.sequence, c.generation, k.sha(c.index), k.sha(c.state))
  }

  /** The file operations of one commit, in program order. */
  function WriteOp(k: Codec, c: Commit, i: nat): Op
    requires i < 7
  {
    match i
    case 0 => Put(IndexTemp(c.generation), c.index)
    case 1 => Put(StateTemp(c.generation), c.state)
    case 2 => Move(IndexTemp(c.generation), IndexFile(c.generation), c.index)
    case 3 => Move(StateTemp(c.generation), StateFile(c.generation), c.state)
    case 4 => Put(ManifestTemp(c.tempId), k.encode(ManifestOf(k, c)))
    case 5 => Move(ManifestTemp(c.tempId), ManifestFile(c.sequence), k.encode(ManifestOf(k, c)))
    case _ => Sync
  }

  function LastSequence(log: seq<Entry>): nat {
    if log == [] then 0 else log[|log| - 1].payload.revision.sequence
  }

  function ManifestSequences(d: Dir): set<nat> {
    set n | n in d && n.ManifestFile? :: n.sequence
  }

  /** `keep` holds the `RETAIN_GENERATIONS` newest complete manifests of `d`, or all if fewer. */
  ghost predicate IsRetained(k: Codec, d: Dir, keep: set<nat>) {
    && |keep| <= RETAIN_GENERATIONS
    && (forall s :: s in keep ==> PayloadAt(k, d, s).Some?)
    && (forall s: nat, t: nat :: PayloadAt(k, d, s).Some? && s !in keep && t in keep ==> s < t)
    && (forall s: nat :: PayloadAt(k, d, s).Some? && s !in keep ==> |keep| == RETAIN_GENERATIONS)
  }

  function RetainedGenerations(k: Codec, d: Dir, keep: set<nat>): set<Generation> {
    set s | s in keep && ManifestAt(k, d, s).Some? :: ManifestAt(k, d, s).value.generation
  }

  predicate IsGenerationData(n: Name) {
    n.IndexFile? || n.StateFile? || n.IndexTemp? || n.StateTemp?
  }

  predicate IsTemp(n: Name) {
    n.ManifestTemp? || n.IndexTemp? || n.StateTemp?
  }

  predicate IsLegacy(n: Name) {
    n.LegacyIndex? || n.LegacyState?
  }

  datatype Action =
    | Begin(commit: Commit, base: Option<Revision>)
    | WriteStep
    | StartCollect(keep: set<nat>)
    | UnlinkManifest(sequence: nat)
    | StartSweep
    | UnlinkData(name: Name)
    | FinishSweep
    | Abort
    | CleanUp(name: Name)
    | RetireLegacy(name: Name)
    | Pause

  ghost predicate Enabled(k: Codec, m: Machine, act: Action) {
    match act
    case Begin(c, base) =>
      && m.phase.Idle?
      && c.generation !in m.used && IsGeneration(c.generation)
      && c.sequence == LastSequence(m.log) + 1 <= MAX_SEQUENCE
      && (base.Some? ==> m.log != [] && base.value == m.log[|m.log| - 1].payload.revision)
    case WriteStep => m.phase.Writing? && m.phase.done < 7
    case StartCollect(keep) => m.phase.Writing? && m.phase.done == 7 && IsRetained(k, m.Dir(), keep)
    case UnlinkManifest(s) => m.phase.Collecting? && s in m.phase.todo
    case StartSweep => m.phase.Collecting? && m.phase.todo == {}
    case UnlinkData(n) => m.phase.Sweeping? && IsGenerationData(n) && n.generation !in m.phase.generations
    case FinishSweep => m.phase.Sweeping?
    case Abort => true
    case CleanUp(n) => (m.phase.Idle? || (m.phase.Writing? && m.phase.done == 7)) && IsTemp(n)
    case RetireLegacy(n) => m.phase.Idle? && IsLegacy(n) && 0 < m.synced == |m.log|
    case Pause => true
  }

  function Next(k: Codec, m: Machine, act: Action): Machine {
    match act
    case Begin(c, base) => m.(phase := Writing(c, base, 0), used := m.used + {c.generation})
    case WriteStep =>
      if m.phase.Writing? && m.phase.done < 7 then
        var c, i := m.phase.commit, m.phase.done;
        var published := if i == 5 then m.(log := m.log + [Entry(c.ToPayload(), m.phase.base)]) else m;
        published.Do(WriteOp(k, c, i)).(phase := m.phase.(done := i + 1))
      else m
    case StartCollect(keep) => m.(phase := Collecting(keep, ManifestSequences(m.Dir()) - keep))
    case UnlinkManifest(s) =>
      if m.phase.Collecting? then m.Do(Remove(ManifestFile(s))).(phase := m.phase.(todo := m.phase.todo - {s})) else m
    case StartSweep =>
      if m.phase.Collecting? then m.(phase := Sweeping(RetainedGenerations(k, m.Dir(), m.phase.keep))) else m
    case UnlinkData(n) => m.Do(Remove(n))
    case FinishSweep => m.Do(Sync).(phase := Idle)
    case Abort => m.(phase := Idle)
    case CleanUp(n) => m.Do(Remove(n))
    case RetireLegacy(n) => m.Do(Remove(n))
    case Pause => m
  }

  /** One step of the running system; the only writer may stop (Abort) before any of its operations. */
  ghost predicate Step(k: Codec, a: Machine, b: Machine) {
    exists act: Action :: Enabled(k, a, act) && b == Next(k, a, act)
  }

  // -------------------------------------------------------------------------------- the invariant

  /** `d` shows exactly the first `j` log entries: entry `j - 1` is its newest complete snapshot. */
  ghost predicate Shows(k: Codec, d: Dir, log: seq<Entry>, j: nat)
    requires j <= |log|
  {
    if j == 0 then NothingComplete(k, d) else Newest(k, d, log[j - 1].payload)
  }

  ghost predicate ShowsSome(k: Codec, d: Dir, log: seq<Entry>, from: nat) {
    exists j: nat :: from <= j <= |log| && Shows(k, d, log, j)
  }

  ghost predicate Within(k: Codec, d: Dir, used: set<Generation>) {
    && (forall n :: n in d && IsGenerationData(n) ==> n.generation in used)
    && (forall s: nat, g: Generation :: MentionsAt(k, d, s, g) ==> g in used)
  }

  /** What every crash image knows of the generation being written. */
  ghost predicate InFlight(k: Codec, d: Dir, c: Commit, done: nat) {
    && (IndexFile(c.generation) in d ==> done >= 3 && d[IndexFile(c.generation)] == c.index)
    && (StateFile(c.generation) in d ==> done >= 4 && d[StateFile(c.generation)] == c.state)
    && (forall s: nat :: MentionsAt(k, d, s, c.generation) ==> done >= 6)
  }

  ghost predicate ImageOk(k: Codec, m: Machine, v: Dir) {
    && Within(k, v, m.used)
    && ShowsSome(k, v, m.log, m.synced)
    && (m.phase.Writing? && m.phase.done < 6 ==> InFlight(k, v, m.phase.commit, m.phase.done))
  }

  ghost predicate ImagesOk(k: Codec, m: Machine) {
    forall v: Dir :: Image(m.durable, m.pending, v) ==> ImageOk(k, m, v)
  }

  /** Entry `i` is one above its predecessor, which is also what its writer had loaded, if anything. */
  ghost predicate Follows(log: seq<Entry>, i: nat)
    requires 0 < i < |log|
  {
    && log[i].payload.revision.sequence == log[i - 1].payload.revision.sequence + 1
    && (log[i].base.Some? ==> log[i].base.value == log[i - 1].payload.revision)
  }

  ghost predicate Chain(log: seq<Entry>) {
    forall i: nat :: 0 < i < |log| ==> Follows(log, i)
  }

  ghost predicate Staged(k: Codec, d: Dir, c: Commit, done: nat) {
    && (1 <= done <= 2 ==> IndexTemp(c.generation) in d && d[IndexTemp(c.generation)] == c.index)
    && (2 <= done <= 3 ==> StateTemp(c.generation) in d && d[StateTemp(c.generation)] == c.state)
    && (3 <= done ==> IndexFile(c.generation) in d && d[IndexFile(c.generation)] == c.index)
    && (4 <= done ==> StateFile(c.generation) in d && d[StateFile(c.generation)] == c.state)
    && (done == 5 ==> ManifestTemp(c.tempId) in d && d[ManifestTemp(c.tempId)] == k.encode(ManifestOf(k, c)))
  }

  ghost predicate AllRetained(k: Codec, d: Dir, generations: set<Generation>) {
    forall s: nat :: ManifestFile(s) in d ==>
      PayloadAt(k, d, s).Some? && PayloadAt(k, d, s).value.revision.generation in generations
  }

  ghost predicate PhaseOk(k: Codec, m: Machine) {
    match m.phase
    case Idle => true
    case Writing(c, base, done) =>
      && done <= 7
      && c.generation in m.used && IsGeneration(c.generation)
      && (done < 6 ==>
            && Staged(k, m.Dir(), c, done)
            && c.sequence == LastSequence(m.log) + 1 <= MAX_SEQUENCE
            && (base.Some? ==> m.log != [] && base.value == m.log[|m.log| - 1].payload.revision))
      && (done >= 6 ==> m.log != [] && m.log[|m.log| - 1] == Entry(c.ToPayload(), base))
      && (done == 7 ==> m.synced == |m.log|)
    case Collecting(keep, todo) =>
      && 0 < |m.log| == m.synced
      && LastSequence(m.log) in keep
      && keep !! todo
      && (forall s: nat :: ManifestFile(s) in m.Dir() ==> s in keep || s in todo)
      && (forall s :: s in keep ==> PayloadAt(k, m.Dir(), s).Some?)
    case Sweeping(generations) =>
      && 0 < |m.log| == m.synced
      && m.log[|m.log| - 1].payload.revision.generation in generations
      && AllRetained(k, m.Dir(), generations)
  }

  ghost predicate Inv(k: Codec, m: Machine) {
    && k.Lossless()
    && m.synced <= |m.log|
    && Chain(m.log)
    && ImagesOk(k, m)
    && Shows(k, m.Dir(), m.log, |m.log|)
    && PhaseOk(k, m)
  }

  // ------------------------------------------------------------------------------------ the start

  /** A directory in which nothing was ever published; `used` covers the data files a crash left behind. */
  ghost predicate Unpublished(files: Dir, used: set<Generation>) {
    && (forall s: nat :: ManifestFile(s) !in files)
    && (forall n :: n in files && IsGenerationData(n) ==> n.generation in used)
  }

  /** The system as it first finds such a directory: empty, say, or holding the legacy pair. */
  ghost predicate IsStart(k: Codec, m: Machine) {
    k.Lossless() && m == Machine(m.durable, [], Idle, m.used, [], 0) && Unpublished(m.durable, m.used)
  }
}
