/**
  The snapshot store itself: `commit`, `latest` and the garbage collection as the program runs them,
  one file operation at a time.  Each operation is issued as a step of the protocol machine, so
  stopping anywhere leaves a state the crash theorems speak about.
  */
module SnapshotStore {
  import opened Common
  import opened SnapshotProtocol
  import opened SnapshotDurability
  import opened SnapshotReader

  datatype ReadError = NoSnapshot | Unrecoverable | Unstable

  datatype CommitError = Conflict | Unreadable(cause: ReadError) | SequenceExhausted | IoFailure

  const LATEST_READ_ATTEMPTS: nat := 3

  function Maximum(s: set<nat>): (top: nat)
    requires s != {}
    ensures top in s && forall y :: y in s ==> y <= top
  {
    MaximumExists(s);
    var top :| top in s && forall y :: y in s ==> y <= top;
    top
  }

  /** The sequences in `s`, largest first. */
  function Descending(s: set<nat>): (r: seq<nat>)
    ensures forall x :: x in r <==> x in s
    ensures forall i, j :: 0 <= i < j < |r| ==> r[i] > r[j]
  {
    if s == {} then []
    else
      var top := Maximum(s);
      var rest := Descending(s - {top});
      assert forall j :: 0 <= j < |rest| ==> rest[j] in s - {top};
      [top] + rest
  }

  lemma {:induction false} MaximumExists(s: set<nat>)
    requires s != {}
    ensures exists top :: top in s && forall y :: y in s ==> y <= top
  {
    var x :| x in s;
    if s - {x} == {} {
      assert s == {x};
    } else {
      MaximumExists(s - {x});
      var top :| top in s - {x} && forall y :: y in s - {x} ==> y <= top;
      assert forall y :: y in s ==> y in s - {x} || y == x;
      if x <= top {
        assert top in s;
      } else {
        assert x in s;
      }
    }
  }

  /**
    A reader of the directory.  `views[i]` is the directory at instant `i` of a run of the system;
    between two of its own file operations any number of other processes' steps may go by.  A caller
    that holds the lock sees a run of one instant.
    */
  class Reader {
    const codec: Codec
    const views: seq<Dir>
    ghost const run: seq<Machine>
    var now: nat

    ghost predicate Valid()
      reads this
    {
      && Watched(codec, run)
      && |views| == |run|
      && (forall i :: 0 <= i < |run| ==> views[i] == run[i].Dir())
      && now < |run|
    }

    constructor (codec: Codec, views: seq<Dir>, ghost run: seq<Machine>)
      requires History(codec, run) && |views| == |run|
      requires forall i :: 0 <= i < |run| ==> views[i] == run[i].Dir()
      ensures Valid() && this.codec == codec && this.run == run && now == 0
    {
      HistoryIsWatched(codec, run);
      this.codec, this.views, this.run, now := codec, views, run, 0;
    }

    method Interfere()
      requires Valid()
      modifies this
      ensures Valid() && old(now) <= now
    {
      var later :| now <= later < |views|;
      now := later;
    }

    /** `_payload`: the manifest, then the index (its descriptor pins the bytes), then the sidecar. */
    method ReadPayload(s: nat) returns (r: Option<Payload>)
      requires Valid()
      modifies this
      ensures Valid() && old(now) <= now
      ensures r.Some? ==> r.value.revision.sequence == s
      ensures r.Some? ==> exists t: nat :: old(now) <= t <= now && PayloadAt(codec, run[t].Dir(), s) == r
      ensures r.None? ==> !Steady(codec, run, old(now), now, s)
    {
      Interfere();
      ghost var t := now;
      var manifest := ManifestAt(codec, views[now], s);
      if manifest.None? {
        assert PayloadAt(codec, run[t].Dir(), s) == None;
        return None;
      }
      var g := manifest.value.generation;
      assert Calm(codec, run[t]);
      Interfere();
      ghost var t1 := now;
      DataWasThere(codec, run, t, t1, g);
      if IndexFile(g) !in views[now] {
        Missing(t, t1, s, old(now));
        return None;
      }
      var index := views[now][IndexFile(g)];
      Interfere();
      DataWasThere(codec, run, t, now, g);
      if StateFile(g) !in views[now] {
        Missing(t, now, s, old(now));
        return None;
      }
      var state := views[now][StateFile(g)];
      if codec.sha(state) != manifest.value.stateDigest || codec.sha(index) != manifest.value.indexDigest {
        assert PayloadAt(codec, run[t].Dir(), s) == None;
        return None;
      }
      r := Some(Payload(index, state, Revision(manifest.value.sequence, g)));
      assert PayloadAt(codec, run[t].Dir(), s) == r;
    }

    lemma Missing(t: nat, t': nat, s: nat, from: nat)
      requires Valid() && from <= t <= t' == now
      requires ManifestAt(codec, run[t].Dir(), s).Some?
      requires var g := ManifestAt(codec, run[t].Dir(), s).value.generation;
               IndexFile(g) !in run[t'].Dir() || StateFile(g) !in run[t'].Dir()
      ensures !Steady(codec, run, from, now, s)
    {
      var before, after := PayloadAt(codec, run[t].Dir(), s), PayloadAt(codec, run[t'].Dir(), s);
      assert before.None? || before != after;
    }

    /** `_first_complete`: the first listed snapshot that can be read. */
    method FirstComplete(listed: seq<nat>) returns (r: Option<Payload>, ghost n: nat, ghost t: nat)
      requires Valid()
      modifies this
      ensures Valid() && old(now) <= now && n <= |listed|
      ensures r.Some? <==> n < |listed|
      ensures r.Some? ==> old(now) <= t <= now && PayloadAt(codec, run[t].Dir(), listed[n]) == r
      ensures forall j :: 0 <= j < n ==> !Steady(codec, run, old(now), now, listed[j])
    {
      n, t := 0, now;
      for i := 0 to |listed|
        invariant Valid() && old(now) <= now && n == i
        invariant forall j :: 0 <= j < i ==> !Steady(codec, run, old(now), now, listed[j])
      {
        ghost var before := now;
        r := ReadPayload(listed[i]);
        forall j | 0 <= j < i ensures !Steady(codec, run, old(now), now, listed[j]) {
          SteadyShrinks(codec, run, run, old(now), old(now), before, now, listed[j]);
        }
        if r.Some? {
          t :| before <= t <= now && PayloadAt(codec, run[t].Dir(), listed[i]) == r;
          return;
        }
        SteadyShrinks(codec, run, run, old(now), before, now, now, listed[i]);
        n := n + 1;
      }
      r := None;
    }

    ghost predicate NewestAt(i: nat, p: Payload)
      requires Valid() && i <= now
      reads this
    {
      Newest(codec, run[i].Dir(), p)
    }

    ghost predicate EmptyAt(i: nat)
      requires Valid() && i <= now
      reads this
    {
      ManifestSequences(run[i].Dir()) == {}
    }

    ghost predicate OnlyIncompleteAt(i: nat)
      requires Valid() && i <= now
      reads this
    {
      NothingComplete(codec, run[i].Dir()) && ManifestSequences(run[i].Dir()) != {}
    }

    ghost predicate ListingsDiffer(i: nat, j: nat)
      requires Valid() && i <= j <= now
      reads this
    {
      ManifestSequences(run[i].Dir()) != ManifestSequences(run[j].Dir())
    }

    /**
      `latest()`.  Whatever other processes do meanwhile, a payload returned was the newest complete
      snapshot at some instant of the call, and each refusal was true at some instant too; it gives up
      only after the listing changed three times over.
      */
    method Latest() returns (r: Result<Payload, ReadError>)
      requires Valid()
      modifies this
      ensures Valid() && old(now) <= now
      ensures r.Ok? ==> exists i: nat :: old(now) <= i <= now && NewestAt(i, r.value)
      ensures r == Err(NoSnapshot) ==> exists i: nat :: old(now) <= i <= now && EmptyAt(i)
      ensures r == Err(Unrecoverable) ==> exists i: nat :: old(now) <= i <= now && OnlyIncompleteAt(i)
      ensures r == Err(Unstable) ==> exists a: nat, b: nat, c: nat, d: nat, e: nat, f: nat ::
                && old(now) <= a <= b <= c <= d <= e <= f <= now
                && ListingsDiffer(a, b) && ListingsDiffer(c, d) && ListingsDiffer(e, f)
    {
      hide Watched, Newest, NothingComplete, ManifestSequences, PayloadAt;
      ghost var seen: seq<(nat, nat)> := [];  // when each attempt so far saw the listing change
      for attempt := 0 to LATEST_READ_ATTEMPTS
        invariant Valid() && old(now) <= now && |seen| == attempt
        invariant forall m :: 0 <= m < |seen| ==> old(now) <= seen[m].0 <= seen[m].1 <= now
        invariant forall m :: 0 <= m < |seen| ==> ListingsDiffer(seen[m].0, seen[m].1)
        invariant forall m, n :: 0 <= m < n < |seen| ==> seen[m].1 <= seen[n].0
      {
        var answer;
        ghost var i, j;
        answer, i, j := Attempt();
        if answer.Some? {
          return answer.value;
        }
        seen := seen + [(i, j)];
      }
      assert ListingsDiffer(seen[0].0, seen[0].1) && ListingsDiffer(seen[1].0, seen[1].1);
      assert ListingsDiffer(seen[2].0, seen[2].1);
      return Err(Unstable);
    }

    /** One pass of the retry loop: None when the listing changed under it. */
    method Attempt() returns (answer: Option<Result<Payload, ReadError>>, ghost i: nat, ghost j: nat)
      requires Valid()
      modifies this
      ensures Valid() && old(now) <= i <= j <= now
      ensures answer.Some? && answer.value.Ok? ==> NewestAt(i, answer.value.value)
      ensures answer == Some(Err(NoSnapshot)) ==> EmptyAt(i)
      ensures answer == Some(Err(Unrecoverable)) ==> OnlyIncompleteAt(i)
      ensures answer != Some(Err(Unstable))
      ensures answer == None ==> ListingsDiffer(i, j)
    {
      Interfere();
      i, j := now, now;
      var listed := Descending(ManifestSequences(views[now]));
      ListingOf(views[now], listed);
      if listed == [] {
        assert forall s: nat :: s !in ManifestSequences(views[now]);
        return Some(Err(NoSnapshot)), i, j;
      }
      assert listed[0] in ManifestSequences(views[now]);
      var payload, n, t := FirstComplete(listed);
      ghost var read := now;
      Interfere();
      j := now;
      forall m | 0 <= m < n ensures !Steady(codec, run, i, j, listed[m]) {
        SteadyShrinks(codec, run, run, i, i, read, j, listed[m]);
      }
      var again := Descending(ManifestSequences(views[now]));
      ListingOf(views[now], again);
      if again != listed {
        return None, i, j;
      }
      if payload.Some? {
        i := ReaderLinearizes(codec, run, i, t, j, listed, n, payload.value);
        return Some(Ok(payload.value)), i, j;
      }
      NothingReadMeansNothingComplete(codec, run, i, j, listed);
      return Some(Err(Unrecoverable)), i, j;
    }
  }

  lemma ListingOf(d: Dir, listed: seq<nat>)
    requires listed == Descending(ManifestSequences(d))
    ensures IsListing(d, listed)
  {
    forall s: nat ensures s in listed <==> ManifestFile(s) in d {
      assert s in ManifestSequences(d) <==> ManifestFile(s) in d;
    }
  }

  /** Every manifest listed in `a` is listed in `b`. */
  ghost predicate KeepsListing(a: Dir, b: Dir) {
    forall t: nat :: ManifestFile(t) in a ==> ManifestFile(t) in b
  }

  /** The steps of a commit other than its collection unlist nothing. */
  lemma StepKeepsListing(k: Codec, a: Machine, act: Action)
    requires Enabled(k, a, act) && (act.WriteStep? || act.CleanUp?)
    ensures KeepsListing(a.Dir(), Next(k, a, act).Dir())
  {
    hide PayloadAt, IsHex;
    if act.WriteStep? {
      DirAfter(a.(log := Next(k, a, act).log), WriteOp(k, a.phase.commit, a.phase.done));
    } else {
      DirAfter(a, Remove(act.name));
    }
  }

  /** Of two complete snapshots with consecutive sequences on top, a collection keeps both. */
  lemma TopTwoRetained(k: Codec, d: Dir, keep: set<nat>, s: nat)
    requires IsRetained(k, d, keep)
    requires PayloadAt(k, d, s).Some? && PayloadAt(k, d, s + 1).Some?
    requires forall t: nat :: t > s + 1 ==> PayloadAt(k, d, t) == None
    ensures s in keep && s + 1 in keep && |keep| <= 2
  {
    hide PayloadAt;
    if s !in keep {
      assert forall t :: t in keep ==> s < t;
      OnlyAbove(k, d, keep, s);
    }
  }

  lemma OnlyAbove(k: Codec, d: Dir, keep: set<nat>, s: nat)
    requires forall t :: t in keep ==> s < t && PayloadAt(k, d, t).Some?
    requires forall t: nat :: t > s + 1 ==> PayloadAt(k, d, t) == None
    ensures |keep| <= 1
  {
    hide PayloadAt;
    assert keep <= {s + 1};
    if keep != {} {
      assert keep == {s + 1};
    }
  }

  class SnapshotStore {
    const codec: Codec
    // The directory: what is durable, and the operations issued since the last directory fsync.
    var durable: Dir
    var pending: seq<Op>
    // The protocol's view of this run.
    ghost var phase: Phase
    ghost var used: set<Generation>
    ghost var log: seq<Entry>
    ghost var synced: nat
    ghost var hist: seq<Machine>

    ghost function State(): Machine
      reads this
    {
      Machine(durable, pending, phase, used, log, synced)
    }

    function Files(): Dir
      reads this
    {
      ApplyAll(durable, pending)
    }

    ghost predicate Valid()
      reads this
    {
      History(codec, hist) && hist[|hist| - 1] == State()
    }

    /** Opening a directory some run left behind, with no operation outstanding. */
    constructor (codec: Codec, files: Dir, ghost used: set<Generation>, ghost published: seq<Entry>)
      requires Inv(codec, Machine(files, [], Idle, used, published, |published|))
      ensures Valid() && phase.Idle? && this.codec == codec && this.used == used
      ensures Files() == files && log == published && hist == [State()]
    {
      this.codec := codec;
      this.durable, this.pending, this.phase := files, [], Idle;
      this.used, this.log, this.synced := used, published, |published|;
      this.hist := [Machine(files, [], Idle, used, published, |published|)];
    }

    /** Opening a directory in which nothing was ever published, whatever a crash left beside it. */
    constructor Fresh(codec: Codec, files: Dir, ghost used: set<Generation>)
      requires codec.Lossless() && Unpublished(files, used)
      ensures Valid() && phase.Idle? && this.codec == codec && this.used == used
      ensures Files() == files && log == [] && hist == [State()] && IsStart(codec, State())
    {
      StartHolds(codec, Machine(files, [], Idle, used, [], 0));
      this.codec := codec;
      this.durable, this.pending, this.phase := files, [], Idle;
      this.used, this.log, this.synced := used, [], 0;
      this.hist := [Machine(files, [], Idle, used, [], 0)];
    }

    // ------------------------------------------------------------------------- file operations

    ghost predicate Issues(op: Op, act: Action)
      reads this
    {
      && Enabled(codec, State(), act)
      && Next(codec, State(), act).durable == State().Do(op).durable
      && Next(codec, State(), act).pending == State().Do(op).pending
    }

    ghost predicate Took(before: Machine, h: seq<Machine>, act: Action)
      reads this
    {
      Valid() && State() == Next(codec, before, act) && hist == h + [State()]
    }

    /** Issue one file operation, which must be the one the protocol step `act` performs. */
    method Perform(op: Op, ghost act: Action)
      requires Valid() && Issues(op, act)
      modifies this
      ensures Took(old(State()), old(hist), act)
      ensures act.WriteStep? || act.CleanUp? ==> KeepsListing(old(Files()), Files())
    {
      hide Inv, Next, Enabled, KeepsListing;
      if act.WriteStep? || act.CleanUp? {
        StepKeepsListing(codec, State(), act);
      }
      ghost var after := Next(codec, State(), act);
      HistoryGrows(codec, hist, after);
      if op.Sync? {
        durable, pending := Files(), [];
      } else {
        pending := pending + [op];
      }
      phase, used, log, synced := after.phase, after.used, after.log, after.synced;
      hist := hist + [after];
    }

    /** A change of phase that touches no file. */
    ghost method Declare(act: Action)
      requires Valid() && Enabled(codec, State(), act)
      requires Next(codec, State(), act).durable == durable && Next(codec, State(), act).pending == pending
      modifies this
      ensures Took(old(State()), old(hist), act)
      ensures durable == old(durable) && pending == old(pending)
    {
      hide Inv, Enabled, Next;
      var after := Next(codec, State(), act);
      HistoryGrows(codec, hist, after);
      phase, used, log, synced := after.phase, after.used, after.log, after.synced;
      hist := hist + [after];
    }

    method Write(name: Name, bytes: Bytes, ghost act: Action)
      requires Valid() && Issues(Put(name, bytes), act)
      modifies this
      ensures Took(old(State()), old(hist), act)
      ensures act.WriteStep? || act.CleanUp? ==> KeepsListing(old(Files()), Files())
    {
      Perform(Put(name, bytes), act);
    }

    method Rename(src: Name, dst: Name, ghost act: Action)
      requires Valid() && src in Files() && Issues(Move(src, dst, Files()[src]), act)
      modifies this
      ensures Took(old(State()), old(hist), act)
      ensures act.WriteStep? || act.CleanUp? ==> KeepsListing(old(Files()), Files())
    {
      Perform(Move(src, dst, Files()[src]), act);
    }

    method Unlink(name: Name, ghost act: Action)
      requires Valid() && Issues(Remove(name), act)
      modifies this
      ensures Took(old(State()), old(hist), act)
      ensures act.WriteStep? || act.CleanUp? ==> KeepsListing(old(Files()), Files())
    {
      Perform(Remove(name), act);
    }

    method FsyncDirectory(ghost act: Action)
      requires Valid() && Issues(Sync, act)
      modifies this
      ensures Took(old(State()), old(hist), act)
      ensures act.WriteStep? || act.CleanUp? ==> KeepsListing(old(Files()), Files())
    {
      Perform(Sync, act);
    }

    // ------------------------------------------------------------------------------ the writer

    /** `latest()` under the lock, where nothing else moves. */
    method LatestLocked() returns (r: Result<Payload, ReadError>)
      requires Valid()
      ensures r.Ok? <==> log != []
      ensures r.Ok? ==> r.value == log[|log| - 1].payload && Newest(codec, Files(), r.value)
      ensures r == Err(NoSnapshot) <==> ManifestSequences(Files()) == {}
      ensures r != Err(Unstable)
    {
      StateFacts(codec, hist);
      hide History, Inv, PhaseOk;
      var reader := new Reader(codec, [Files()], [State()]);
      r := reader.Latest();
      assert reader.now == 0 && reader.run[0].Dir() == Files();
      NewestIsListed(codec, Files());
      if r.Ok? {
        assert reader.NewestAt(0, r.value);
      } else if r.error.NoSnapshot? {
        assert reader.EmptyAt(0);
      } else if r.error.Unrecoverable? {
        assert reader.OnlyIncompleteAt(0);
      }
    }

    /** `_complete_manifests`: those of `listed` that name a whole generation, in the same order. */
    method CompleteManifests(listed: seq<nat>) returns (complete: seq<nat>)
      requires forall i, j :: 0 <= i < j < |listed| ==> listed[i] > listed[j]
      ensures forall i, j :: 0 <= i < j < |complete| ==> complete[i] > complete[j]
      ensures forall s :: s in complete <==> s in listed && PayloadAt(codec, Files(), s).Some?
    {
      complete := [];
      for i := 0 to |listed|
        invariant forall i, j :: 0 <= i < j < |complete| ==> complete[i] > complete[j]
        invariant forall s :: s in complete <==> s in listed[..i] && PayloadAt(codec, Files(), s).Some?
      {
        if PayloadAt(codec, Files(), listed[i]).Some? {
          assert forall m :: 0 <= m < |complete| ==> complete[m] in listed[..i];
          complete := complete + [listed[i]];
        }
        assert listed[..i + 1] == listed[..i] + [listed[i]];
      }
      assert listed[..|listed|] == listed;
    }

    /** `_next_sequence`; None when the sequence space is exhausted. */
    method NextSequence() returns (r: Option<nat>)
      requires Valid()
      ensures r == if LastSequence(log) >= MAX_SEQUENCE then None else Some(LastSequence(log) + 1)
    {
      hide History, PayloadAt, ApplyAll, ManifestSequences;
      var listed := Descending(ManifestSequences(Files()));
      var complete := CompleteManifests(listed);
      NewestOfAll(listed, complete);
      if complete == [] {
        return Some(1);
      }
      assert forall j :: 0 <= j < |complete| ==> complete[j] <= complete[0];
      HeadIsIn(complete);
      var current := complete[0];  // the largest, as they come newest first
      return if current >= MAX_SEQUENCE then None else Some(current + 1);
    }

    lemma NewestOfAll(listed: seq<nat>, complete: seq<nat>)
      requires Valid() && listed == Descending(ManifestSequences(Files()))
      requires forall s :: s in complete <==> s in listed && PayloadAt(codec, Files(), s).Some?
      ensures complete == [] <==> log == []
      ensures log != [] ==> LastSequence(log) in complete
      ensures forall s :: s in complete ==> s <= LastSequence(log)
    {
      StateFacts(codec, hist);
      hide History, Inv, PhaseOk, Newest, PayloadAt, ApplyAll, ManifestSequences, Chain;
      ListingOf(Files(), listed);
      NewestOfListing(codec, Files(), log, listed, complete);
    }

    /**
      `commit`.  When it returns, the new generation is the newest and durable, and the one before it is
      still there to fall back on.  Any operation may fail with an I/O error (`*`), and the process may equally stop
      there: every state of `hist` satisfies the crash invariant.
      */
    method Commit(index: Bytes, state: Bytes, expected: Option<Revision>, generation: Generation, tempId: string)
      returns (r: Result<Revision, CommitError>)
      requires Valid() && phase.Idle? && generation !in used && IsGeneration(generation)
      modifies this
      ensures Valid() && old(hist) <= hist && phase.Idle?
      ensures r.Ok? ==>
                && r.value == Revision(LastSequence(old(log)) + 1, generation)
                && log == old(log) + [Entry(Payload(index, state, r.value), expected)]
                && synced == |log|
                && Newest(codec, Files(), Payload(index, state, r.value))
      ensures r.Ok? && old(log) != [] ==>
                PayloadAt(codec, Files(), LastSequence(old(log))) == Some(old(log)[|old(log)| - 1].payload)
      ensures r == Err(IoFailure) ==>
                && old(synced) <= synced
                && (log == old(log) ||
                    log == old(log) + [Entry(Payload(index, state, Revision(LastSequence(old(log)) + 1, generation)), expected)])
      ensures r.Err? && !r.error.IoFailure? ==> State() == old(State()) && hist == old(hist)
      ensures r == Err(Conflict) <==>
                expected.Some? && old(log) != [] && expected.value != old(log)[|old(log)| - 1].payload.revision
      ensures r.Err? && r.error.Unreadable? <==> expected.Some? && old(log) == []
      ensures r == Err(SequenceExhausted) <==>
                LastSequence(old(log)) >= 99_999_999_999_999_999_999 && r != Err(Conflict) && !(r.Err? && r.error.Unreadable?)
    {
      hide History, Inv, PhaseOk, Chain;
      if expected.Some? {
        var current := LatestLocked();
        if current.Err? {
          return Err(Unreadable(current.error));
        }
        if current.value.revision != expected.value {
          return Err(Conflict);
        }
      }
      var sequence := NextSequence();
      if sequence.None? {
        return Err(SequenceExhausted);
      }
      r := WriteGeneration(SnapshotProtocol.Commit(generation, sequence.value, index, state, tempId), expected);
    }

    /** `_write_generation`. */
    method WriteGeneration(c: Commit, base: Option<Revision>) returns (r: Result<Revision, CommitError>)
      requires Valid() && Enabled(codec, State(), Begin(c, base))
      modifies this
      ensures Valid() && old(hist) <= hist && phase.Idle? && old(synced) <= synced
      ensures r == Ok(Revision(c.sequence, c.generation)) || r == Err(IoFailure)
      ensures r.Ok? ==>
                && log == old(log) + [Entry(c.ToPayload(), base)]
                && synced == |log|
                && Newest(codec, Files(), c.ToPayload())
      ensures log == old(log) || log == old(log) + [Entry(c.ToPayload(), base)]
      ensures r.Ok? && old(log) != [] ==>
                PayloadAt(codec, Files(), LastSequence(old(log))) == Some(old(log)[|old(log)| - 1].payload)
    {
      hide History, Inv, PhaseOk, Chain, Newest, PayloadAt, Enabled, Next, WriteOp;
      ghost var start, at := State(), HereAt(codec, hist);
      LastIsListed(start, at);
      var ok := PublishGeneration(c, base);
      if !ok {
        RemoveTemps(c);
        return Err(IoFailure);
      }
      CollectAfterCommit(c, start, at);
      return Ok(Revision(c.sequence, c.generation));
    }

    /** Stage and publish; when an operation fails the commit is given up. */
    method PublishGeneration(c: Commit, base: Option<Revision>) returns (ok: bool)
      requires Valid() && Enabled(codec, State(), Begin(c, base))
      modifies this
      ensures Valid() && old(hist) <= hist && old(synced) <= synced && KeepsListing(old(Files()), Files())
      ensures log == old(log) || log == old(log) + [Entry(c.ToPayload(), base)]
      ensures ok ==> phase == Writing(c, base, 7) && log == old(log) + [Entry(c.ToPayload(), base)] && synced == |log|
      ensures ok ==> c.sequence == LastSequence(old(log)) + 1
      ensures !ok ==> phase.Idle?
    {
      hide History, Inv, PhaseOk, Chain, IsGeneration, WriteOp;
      Declare(Begin(c, base));
      ok := StageGeneration(c, base);
      if ok {
        ok := CommitManifest(c, base);
      }
      if !ok {
        Declare(Abort);
      }
    }

    /** `_collect_after_commit`, whose failure is only logged, and the clean-up. */
    method CollectAfterCommit(c: Commit, ghost start: Machine, ghost at: nat)
      requires Valid() && phase.Writing? && phase.done == 7 && synced == |log|
      requires at < |hist| && hist[at] == start && log != [] && log[|log| - 1].payload == c.ToPayload()
      requires start.log != [] ==> ManifestFile(LastSequence(start.log)) in Files() && c.sequence == LastSequence(start.log) + 1
      modifies this
      ensures Valid() && old(hist) <= hist && phase.Idle? && log == old(log) && synced == old(synced)
      ensures Newest(codec, Files(), c.ToPayload())
      ensures start.log != [] ==>
                PayloadAt(codec, Files(), LastSequence(start.log)) == Some(start.log[|start.log| - 1].payload)
    {
      hide History, Inv, PhaseOk, Chain, Newest, PayloadAt, IsRetained;
      PredecessorStays(start, at);
      StateFacts(codec, hist);
      ghost var published := Files();
      var _, keep := CollectOldGenerations();
      if start.log != [] {
        PredecessorRetained(published, keep, LastSequence(start.log), c.ToPayload());
      }
      RemoveTemps(c);
      PredecessorStays(start, at);
      StateFacts(codec, hist);
    }

    /** The newest snapshot of an earlier state, if still listed, is still there, the same. */
    lemma PredecessorStays(m: Machine, at: nat)
      requires Valid() && at < |hist| && hist[at] == m
      requires m.log != [] ==> ManifestFile(LastSequence(m.log)) in Files()
      ensures m.log != [] ==> ManifestFile(LastSequence(m.log)) in m.Dir()
      ensures m.log != [] ==> PayloadAt(codec, Files(), LastSequence(m.log)) == Some(m.log[|m.log| - 1].payload)
    {
      if m.log != [] {
        var s, p := LastSequence(m.log), m.log[|m.log| - 1].payload;
        LastIsListed(m, at);
        HistoryIsWatched(codec, hist);
        hide History, Inv, PayloadAt, Watched;
        ListedMeansSteady(codec, hist, at, |hist| - 1, s, p);
        assert SteadyAs(codec, hist, at, |hist| - 1, s, p);
      }
    }

    lemma LastIsListed(m: Machine, at: nat)
      requires Valid() && at < |hist| && hist[at] == m
      ensures m.log != [] ==> ManifestFile(LastSequence(m.log)) in m.Dir()
      ensures m.log != [] ==> PayloadAt(codec, m.Dir(), LastSequence(m.log)) == Some(m.log[|m.log| - 1].payload)
    {
      assert Inv(codec, hist[at]);
      hide History;
      assert Shows(codec, m.Dir(), m.log, |m.log|);
    }

    /** The collection that follows a commit leaves the generation before it listed. */
    lemma PredecessorRetained(before: Dir, keep: set<nat>, s: nat, p: Payload)
      requires IsRetained(codec, before, keep) && Keeps(before, keep)
      requires PayloadAt(codec, before, s).Some? && p.revision.sequence == s + 1 && Newest(codec, before, p)
      ensures ManifestFile(s) in Files()
    {
      TopTwoRetained(codec, before, keep, s);
      assert PayloadAt(codec, Files(), s).Some?;
    }

    /** `_stage_generation`: false when an operation failed. */
    method StageGeneration(c: Commit, ghost base: Option<Revision>) returns (ok: bool)
      requires Valid() && phase == Writing(c, base, 0)
      modifies this
      ensures Valid() && old(hist) <= hist && log == old(log) && synced == old(synced) && used == old(used)
      ensures KeepsListing(old(Files()), Files())
      ensures ok ==> phase == Writing(c, base, 4)
    {
      hide History, Inv, PhaseOk, Chain, IsGeneration, ApplyAll, Apply;
      WritingFacts(codec, hist);
      if * { return false; }
      Write(IndexTemp(c.generation), c.index, WriteStep);
      if * { return false; }
      Write(StateTemp(c.generation), c.state, WriteStep);
      if * { return false; }
      WritingFacts(codec, hist);
      Rename(IndexTemp(c.generation), IndexFile(c.generation), WriteStep);
      if * { return false; }
      WritingFacts(codec, hist);
      Rename(StateTemp(c.generation), StateFile(c.generation), WriteStep);
      return true;
    }

    /** `_commit_manifest`: hash the staged files, write the manifest aside, publish it, fsync. */
    method CommitManifest(c: Commit, ghost base: Option<Revision>) returns (ok: bool)
      requires Valid() && phase == Writing(c, base, 4)
      modifies this
      ensures Valid() && old(hist) <= hist && old(synced) <= synced
      ensures KeepsListing(old(Files()), Files())
      ensures log == old(log) || log == old(log) + [Entry(c.ToPayload(), base)]
      ensures ok ==> phase == Writing(c, base, 7) && log == old(log) + [Entry(c.ToPayload(), base)] && synced == |log|
    {
      hide History, Inv, PhaseOk, Chain, Staged, IsGeneration, Enabled, Next;
      ok := WriteManifest(c, base);
      if ok {
        ok := PublishManifest(c, base);
      }
    }

    /** The manifest, under a temporary name: it names the staged files by what they hash to. */
    method WriteManifest(c: Commit, ghost base: Option<Revision>) returns (ok: bool)
      requires Valid() && phase == Writing(c, base, 4)
      modifies this
      ensures Valid() && old(hist) <= hist && synced == old(synced) && log == old(log)
      ensures KeepsListing(old(Files()), Files())
      ensures ok ==> phase == Writing(c, base, 5)
    {
      hide History, Inv, PhaseOk, Chain, IsGeneration;
      StagedHashes(codec, hist, c, base);
      if * { return false; }
      var manifest := Manifest(c.sequence, c.generation,
                               codec.sha(Files()[IndexFile(c.generation)]), codec.sha(Files()[StateFile(c.generation)]));
      Write(ManifestTemp(c.tempId), codec.encode(manifest), WriteStep);
      return true;
    }

    /** The rename that publishes, then the directory fsync that makes it last. */
    method PublishManifest(c: Commit, ghost base: Option<Revision>) returns (ok: bool)
      requires Valid() && phase == Writing(c, base, 5)
      modifies this
      ensures Valid() && old(hist) <= hist && old(synced) <= synced
      ensures KeepsListing(old(Files()), Files())
      ensures log == old(log) || log == old(log) + [Entry(c.ToPayload(), base)]
      ensures ok ==> phase == Writing(c, base, 7) && log == old(log) + [Entry(c.ToPayload(), base)] && synced == |log|
    {
      hide History, Inv, PhaseOk, Chain, IsGeneration, ApplyAll, Apply;
      if * { return false; }
      WritingFacts(codec, hist);
      Rename(ManifestTemp(c.tempId), ManifestFile(c.sequence), WriteStep);
      ok := SettleManifest(c, base);
    }

    /** The directory fsync, and the clean-up. */
    method SettleManifest(c: Commit, ghost base: Option<Revision>) returns (ok: bool)
      requires Valid() && phase == Writing(c, base, 6)
      modifies this
      ensures Valid() && old(hist) <= hist && old(synced) <= synced && log == old(log)
      ensures KeepsListing(old(Files()), Files())
      ensures ok ==> phase == Writing(c, base, 7) && synced == |log|
    {
      hide History, Inv, PhaseOk, Chain, IsGeneration, ApplyAll, Apply;
      WritingFacts(codec, hist);
      if * { return false; }
      FsyncDirectory(WriteStep);
      WritingFacts(codec, hist);
      Unlink(ManifestTemp(c.tempId), CleanUp(ManifestTemp(c.tempId)));
      return true;
    }

    /** What a finished collection of directory `before` leaves, given the manifests it kept. */
    ghost predicate Tidy(before: Dir, keep: set<nat>)
      reads this
    {
      && (forall s: nat :: ManifestFile(s) in Files() <==> s in keep)
      && (forall s :: s in keep ==> PayloadAt(codec, Files(), s) == PayloadAt(codec, before, s))
      && (forall n :: n in Files() && IsGenerationData(n) ==>
            n.generation in RetainedGenerations(codec, before, keep))
    }

    ghost predicate Keeps(before: Dir, keep: set<nat>)
      reads this
    {
      forall s :: s in keep ==>
        PayloadAt(codec, before, s).Some? && PayloadAt(codec, Files(), s) == PayloadAt(codec, before, s)
    }

    /** `_collect_old_generations`: keep the two newest complete generations, drop everything else. */
    method CollectOldGenerations() returns (done: bool, ghost keep: set<nat>)
      requires Valid() && phase.Writing? && phase.done == 7 && synced == |log|
      modifies this
      ensures Valid() && old(hist) <= hist && phase.Idle?
      ensures log == old(log) && synced == old(synced) && used == old(used)
      ensures IsRetained(codec, old(Files()), keep) && Keeps(old(Files()), keep)
      ensures done ==> Tidy(old(Files()), keep) && |ManifestSequences(Files())| <= 2
      ensures done ==> forall g: Generation ::
                IndexFile(g) in Files() || StateFile(g) in Files() || IndexTemp(g) in Files() || StateTemp(g) in Files() ==>
                  exists s: nat :: PayloadAt(codec, Files(), s).Some? && PayloadAt(codec, Files(), s).value.revision.generation == g
    {
      hide History, Inv, PhaseOk, IsRetained, PayloadAt, ManifestAt, RetainedGenerations;
      ghost var before := Files();
      var listed, kept := ChooseRetained();
      keep := kept;
      RetainedIsComplete(codec, before, keep);
      Declare(StartCollect(keep));
      done := UnlinkOldManifests(listed, kept, before);
      if done {
        done := SweepData(kept, before);
      }
      if !done {
        Declare(Abort);
        return;
      }
      FsyncDirectory(FinishSweep);
      TidyIsSmall(before, keep);
      DataBelongs(before, keep);
    }

    lemma TidyIsSmall(before: Dir, keep: set<nat>)
      requires Tidy(before, keep) && IsRetained(codec, before, keep)
      ensures |ManifestSequences(Files())| <= 2
    {
      hide PayloadAt, RetainedGenerations;
      assert ManifestSequences(Files()) == keep;
    }

    lemma DataBelongs(before: Dir, keep: set<nat>)
      requires Tidy(before, keep) && Keeps(before, keep)
      ensures forall g: Generation ::
                IndexFile(g) in Files() || StateFile(g) in Files() || IndexTemp(g) in Files() || StateTemp(g) in Files() ==>
                  exists s: nat :: PayloadAt(codec, Files(), s).Some? && PayloadAt(codec, Files(), s).value.revision.generation == g
    {
      forall g: Generation |
        IndexFile(g) in Files() || StateFile(g) in Files() || IndexTemp(g) in Files() || StateTemp(g) in Files()
        ensures exists s: nat :: PayloadAt(codec, Files(), s).Some? && PayloadAt(codec, Files(), s).value.revision.generation == g
      {
        assert g in RetainedGenerations(codec, before, keep);
        var s :| s in keep && ManifestAt(codec, before, s).Some? && ManifestAt(codec, before, s).value.generation == g;
        assert PayloadAt(codec, before, s).value.revision.generation == g;
      }
    }

    method SweepData(keep: set<nat>, ghost before: Dir) returns (ok: bool)
      requires Valid() && phase == Collecting(keep, {}) && Keeps(before, keep)
      modifies this
      ensures Valid() && old(hist) <= hist && log == old(log) && synced == old(synced) && used == old(used)
      ensures Keeps(before, keep) && (ok ==> phase.Sweeping? && Tidy(before, keep))
    {
      hide History, Inv, PhaseOk, PayloadAt, ManifestAt, RetainedGenerations;
      CollectedFacts(codec, hist);
      RetainedAgree(codec, before, Files(), keep);
      var generations := RetainedGenerations(codec, Files(), keep);
      Declare(StartSweep);
      ok := RemoveUnreferencedData(generations, keep, before);
    }

    /** The manifest listing and the manifests among it to keep. */
    method ChooseRetained() returns (listed: seq<nat>, keep: set<nat>)
      ensures IsListing(Files(), listed) && IsRetained(codec, Files(), keep)
    {
      listed := Descending(ManifestSequences(Files()));
      ListingOf(Files(), listed);
      var complete := CompleteManifests(listed);
      var retained := if |complete| <= RETAIN_GENERATIONS then complete else complete[..RETAIN_GENERATIONS];
      keep := set s | s in retained;
      RetainedPrefix(codec, Files(), listed, complete, retained, keep);
    }

    lemma OthersKept(was: Dir, gone: nat, before: Dir, keep: set<nat>)
      requires gone !in keep && Files() == was - {ManifestFile(gone)}
      requires forall s :: s in keep ==> PayloadAt(codec, before, s).Some? && PayloadAt(codec, was, s) == PayloadAt(codec, before, s)
      ensures Keeps(before, keep)
    {
    }

    method UnlinkOldManifests(listed: seq<nat>, keep: set<nat>, ghost before: Dir) returns (ok: bool)
      requires Valid() && Files() == before && IsListing(before, listed)
      requires phase == Collecting(keep, ManifestSequences(before) - keep) && Keeps(before, keep)
      modifies this
      ensures Valid() && old(hist) <= hist && log == old(log) && synced == old(synced) && used == old(used)
      ensures Keeps(before, keep) && (ok ==> phase == Collecting(keep, {}))
    {
      hide History, Inv, PhaseOk, ApplyAll, PayloadAt;
      ghost var todo := phase.todo;
      for i := 0 to |listed|
        invariant Valid() && old(hist) <= hist && log == old(log) && synced == old(synced) && used == old(used)
        invariant phase == Collecting(keep, set s | s in todo && s in listed[i..])
        invariant Keeps(before, keep)
      {
        if * { return false; }
        assert listed[i..] == [listed[i]] + listed[i + 1..];
        assert forall j :: i < j < |listed| ==> listed[j] < listed[i];
        if listed[i] !in keep {
          assert ManifestFile(listed[i]) in before;
          assert listed[i] in todo;
          ghost var was := State();
          Unlink(ManifestFile(listed[i]), UnlinkManifest(listed[i]));
          DirAfter(was, Remove(ManifestFile(listed[i])));
          OthersKept(was.Dir(), listed[i], before, keep);
        }
        assert phase.todo == set s | s in todo && s in listed[i + 1..];
      }
      return true;
    }

    method RemoveUnreferenced(n: Name, ghost generations: set<Generation>, ghost keep: set<nat>, ghost before: Dir)
      requires Valid() && phase == Sweeping(generations) && Keeps(before, keep)
      requires generations == RetainedGenerations(codec, before, keep)
      requires IsGenerationData(n) && n.generation !in generations
      modifies this
      ensures Valid() && old(hist) <= hist && log == old(log) && synced == old(synced) && used == old(used)
      ensures phase == old(phase) && Keeps(before, keep) && Files() == old(Files()) - {n}
    {
      hide History, Inv, PhaseOk, PayloadAt, ManifestAt, RetainedGenerations;
      ghost var was := State();
      Unlink(n, UnlinkData(n));
      DirAfter(was, Remove(n));
      SweepKeeps(codec, was.Dir(), n, keep, generations, before);
    }

    lemma KeptIsTidy(before: Dir, keep: set<nat>)
      requires Keeps(before, keep)
      requires forall s: nat :: ManifestFile(s) in Files() ==> s in keep
      requires forall n :: n in Files() && IsGenerationData(n) ==>
                 n.generation in RetainedGenerations(codec, before, keep)
      ensures Tidy(before, keep)
    {
      forall s | s in keep ensures ManifestFile(s) in Files() {
        assert PayloadAt(codec, Files(), s).Some?;
      }
    }

    /** `_remove_unreferenced_data`, in whatever order the directory is listed. */
    method RemoveUnreferencedData(generations: set<Generation>, keep: set<nat>, ghost before: Dir) returns (ok: bool)
      requires Valid() && phase == Sweeping(generations) && Keeps(before, keep)
      requires generations == RetainedGenerations(codec, before, keep)
      requires forall s: nat :: ManifestFile(s) in Files() ==> s in keep
      modifies this
      ensures Valid() && old(hist) <= hist && log == old(log) && synced == old(synced) && used == old(used)
      ensures Keeps(before, keep) && (ok ==> phase == Sweeping(generations) && Tidy(before, keep))
    {
      hide History, Inv, PhaseOk, Keeps, RetainedGenerations;
      var todo := Files().Keys;
      while todo != {}
        invariant Valid() && old(hist) <= hist && log == old(log) && synced == old(synced) && used == old(used)
        invariant phase == Sweeping(generations) && Keeps(before, keep)
        invariant forall s: nat :: ManifestFile(s) in Files() ==> s in keep
        invariant forall n :: n in Files() && n !in todo && IsGenerationData(n) ==> n.generation in generations
        decreases todo
      {
        if * { return false; }
        var n :| n in todo;
        todo := todo - {n};
        if IsGenerationData(n) && n.generation !in generations {
          RemoveUnreferenced(n, generations, keep, before);
        }
      }
      KeptIsTidy(before, keep);
      return true;
    }

    /** The `finally` of a commit. */
    method RemoveTemps(c: Commit)
      requires Valid() && phase.Idle?
      modifies this
      ensures Valid() && old(hist) <= hist && phase.Idle?
      ensures log == old(log) && synced == old(synced) && used == old(used)
      ensures KeepsListing(old(Files()), Files())
    {
      hide History, Inv, PhaseOk;
      Unlink(IndexTemp(c.generation), CleanUp(IndexTemp(c.generation)));
      Unlink(StateTemp(c.generation), CleanUp(StateTemp(c.generation)));
      Unlink(ManifestTemp(c.tempId), CleanUp(ManifestTemp(c.tempId)));
    }
  }

  /** The index of a history's last state. */
  ghost function HereAt(k: Codec, h: seq<Machine>): (at: nat)
    requires History(k, h)
    ensures at + 1 == |h|
  {
    |h| - 1
  }

  /** What the writer reads off the invariant. */
  lemma StateFacts(k: Codec, h: seq<Machine>)
    requires History(k, h)
    ensures h != [] && Inv(k, h[|h| - 1])
    ensures Shows(k, h[|h| - 1].Dir(), h[|h| - 1].log, |h[|h| - 1].log|)
    ensures PhaseOk(k, h[|h| - 1]) && h[|h| - 1].synced <= |h[|h| - 1].log|
  {
  }

  lemma NewestOfListing(k: Codec, d: Dir, log: seq<Entry>, listed: seq<nat>, complete: seq<nat>)
    requires IsListing(d, listed) && Shows(k, d, log, |log|)
    requires forall s :: s in complete <==> s in listed && PayloadAt(k, d, s).Some?
    ensures complete == [] <==> log == []
    ensures log != [] ==> LastSequence(log) in complete
    ensures forall s :: s in complete ==> s <= LastSequence(log)
  {
    if log == [] {
      HeadIsIn(complete);
      assert forall s :: s in complete ==> PayloadAt(k, d, s).Some? && PayloadAt(k, d, s) == None;
    } else {
      assert ManifestFile(LastSequence(log)) in d;
    }
  }

  lemma HeadIsIn(s: seq<nat>)
    ensures s != [] ==> s[0] in s
  {
  }

  lemma WritingFacts(k: Codec, h: seq<Machine>)
    requires History(k, h) && h[|h| - 1].phase.Writing?
    ensures var m := h[|h| - 1];
            && (m.phase.done < 6 ==> Staged(k, m.Dir(), m.phase.commit, m.phase.done))
            && (m.phase.done == 7 ==> m.synced == |m.log|)
            && m.synced <= |m.log|
  {
    StateFacts(k, h);
    hide History, Inv;
  }

  /** The staged files are the ones the manifest must name. */
  lemma StagedHashes(k: Codec, h: seq<Machine>, c: Commit, base: Option<Revision>)
    requires History(k, h) && h[|h| - 1].phase == Writing(c, base, 4)
    ensures var d := h[|h| - 1].Dir();
            && IndexFile(c.generation) in d && StateFile(c.generation) in d
            && Manifest(c.sequence, c.generation, k.sha(d[IndexFile(c.generation)]), k.sha(d[StateFile(c.generation)])) ==
               ManifestOf(k, c)
  {
    hide History, Inv;
    WritingFacts(k, h);
  }

  lemma CollectedFacts(k: Codec, h: seq<Machine>)
    requires History(k, h) && h[|h| - 1].phase.Collecting?
    ensures forall s: nat :: ManifestFile(s) in h[|h| - 1].Dir() ==>
              s in h[|h| - 1].phase.keep || s in h[|h| - 1].phase.todo
  {
    StateFacts(k, h);
    hide History, Inv;
  }

  lemma NewestIsListed(k: Codec, d: Dir)
    ensures (exists s: nat :: PayloadAt(k, d, s).Some?) ==> ManifestSequences(d) != {}
  {
    if s: nat :| PayloadAt(k, d, s).Some? {
      assert s in ManifestSequences(d);
    }
  }

  lemma SweepKeeps(k: Codec, d: Dir, n: Name, keep: set<nat>, generations: set<Generation>, before: Dir)
    requires IsGenerationData(n) && n.generation !in generations
    requires generations == RetainedGenerations(k, before, keep)
    requires forall s :: s in keep ==> PayloadAt(k, before, s).Some? && PayloadAt(k, d, s) == PayloadAt(k, before, s)
    ensures forall s :: s in keep ==> PayloadAt(k, Apply(Remove(n), d), s) == PayloadAt(k, before, s)
  {
    forall s | s in keep ensures PayloadAt(k, Apply(Remove(n), d), s) == PayloadAt(k, d, s) {
      assert ManifestAt(k, before, s).Some? && ManifestAt(k, before, s).value.generation in generations;
      assert PayloadAt(k, d, s).value.revision.generation == ManifestAt(k, before, s).value.generation;
    }
  }

  lemma RetainedIsComplete(k: Codec, d: Dir, keep: set<nat>)
    requires IsRetained(k, d, keep)
    ensures forall s :: s in keep ==> PayloadAt(k, d, s).Some?
  {
  }

  lemma RetainedAgree(k: Codec, a: Dir, b: Dir, keep: set<nat>)
    requires forall s :: s in keep ==> PayloadAt(k, a, s).Some? && PayloadAt(k, b, s) == PayloadAt(k, a, s)
    ensures RetainedGenerations(k, b, keep) == RetainedGenerations(k, a, keep)
  {
    forall s | s in keep
      ensures ManifestAt(k, a, s).Some? && ManifestAt(k, b, s).Some?
      ensures ManifestAt(k, a, s).value.generation == ManifestAt(k, b, s).value.generation
    {
      assert PayloadAt(k, a, s).value.revision == PayloadAt(k, b, s).value.revision;
    }
  }

  /** The first two complete manifests of a newest-first listing are the ones to retain. */
  lemma RetainedPrefix(k: Codec, d: Dir, listed: seq<nat>, complete: seq<nat>, retained: seq<nat>, keep: set<nat>)
    requires IsListing(d, listed)
    requires forall i, j :: 0 <= i < j < |complete| ==> complete[i] > complete[j]
    requires forall s :: s in complete <==> s in listed && PayloadAt(k, d, s).Some?
    requires retained == if |complete| <= RETAIN_GENERATIONS then complete else complete[..RETAIN_GENERATIONS]
    requires keep == set s | s in retained
    ensures IsRetained(k, d, keep)
  {
    assert forall s: nat :: PayloadAt(k, d, s).Some? ==> ManifestFile(s) in d;
    assert forall s: nat :: PayloadAt(k, d, s).Some? ==> s in complete;
    if |complete| >= 2 {
      assert keep == {complete[0], complete[1]};
    } else if |complete| == 1 {
      assert keep == {complete[0]};
    } else {
      assert keep == {};
    }
  }
}
