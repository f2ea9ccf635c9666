/**
  Why the lock-free reader is linearizable: what a step may do to the snapshots a reader is looking
  at, and the argument that turns a stable manifest listing into an instant of the call.
  */
module SnapshotReader {
  import opened Common
  import opened SnapshotProtocol
  import opened SnapshotDurability

  /**
    A snapshot is complete exactly when its manifest parses, repeats the sequence of its file name, and
    names two files that are there and hash to what it says.
    */
  lemma CompleteExactlyWhen(k: Codec, d: Dir, s: nat, p: Payload)
    ensures PayloadAt(k, d, s) == Some(p) <==>
              && ManifestFile(s) in d && k.decode(d[ManifestFile(s)]).Some?
              && var m := k.decode(d[ManifestFile(s)]).value;
                 && m.sequence == s && p.revision == Revision(s, m.generation)
                 && IndexFile(m.generation) in d && d[IndexFile(m.generation)] == p.index && k.sha(p.index) == m.indexDigest
                 && StateFile(m.generation) in d && d[StateFile(m.generation)] == p.state && k.sha(p.state) == m.stateDigest
  {
  }

  ghost predicate StepsAt(k: Codec, h: seq<Machine>, i: nat)
    requires i + 1 < |h|
  {
    Step(k, h[i], h[i + 1])
  }

  /** The states the machine went through, oldest first, with no power failure among them. */
  ghost predicate History(k: Codec, h: seq<Machine>) {
    && h != []
    && (forall i :: 0 <= i < |h| ==> Inv(k, h[i]))
    && (forall i: nat :: i + 1 < |h| ==> StepsAt(k, h, i))
  }

  /** Steps from a directory in which nothing was published make such a history. */
  lemma StartedHistory(k: Codec, h: seq<Machine>)
    requires h != [] && IsStart(k, h[0])
    requires forall i: nat :: i + 1 < |h| ==> StepsAt(k, h, i)
    ensures History(k, h)
  {
    hide Inv, Step, PowerFailure;
    forall i: nat | i + 1 < |h| ensures SnapshotDurability.Continues(k, h, i) {
      assert StepsAt(k, h, i);
    }
    forall i | 0 <= i < |h| ensures Inv(k, h[i]) {
      StartedRunKeeps(k, h, i);
    }
  }

  lemma HistoryGrows(k: Codec, h: seq<Machine>, m: Machine)
    requires History(k, h) && Step(k, h[|h| - 1], m)
    ensures History(k, h + [m])
  {
    StepKeeps(k, h[|h| - 1], m);
    hide Inv, Step;
    forall i: nat | i + 1 < |h + [m]| ensures StepsAt(k, h + [m], i) {
      if i + 1 < |h| {
        assert StepsAt(k, h, i);
      }
    }
  }

  // ------------------------------------------------------------------------ what one step may do

  /** A snapshot stops being complete only by losing its manifest: data outlives its manifest. */
  ghost predicate ManifestsGoFirst(k: Codec, a: Dir, b: Dir) {
    forall s: nat :: PayloadAt(k, a, s).Some? && ManifestFile(s) in b ==> PayloadAt(k, b, s) == PayloadAt(k, a, s)
  }

  /** A manifest name appears only above everything published so far. */
  ghost predicate NamesAppearOnTop(a: Machine, b: Machine) {
    forall s: nat :: ManifestFile(s) !in a.Dir() && ManifestFile(s) in b.Dir() ==> LastSequence(a.log) < s
  }

  /** A snapshot that becomes complete is the newest one at that instant. */
  ghost predicate CompletesAsNewest(k: Codec, a: Dir, b: Dir) {
    forall s: nat :: PayloadAt(k, b, s).Some? && PayloadAt(k, b, s) != PayloadAt(k, a, s) ==>
      Newest(k, b, PayloadAt(k, b, s).value)
  }

  /** The data files of `g` are in place, or never will be. */
  ghost predicate Settled(m: Machine, g: Generation) {
    g in m.used && !(m.phase.Writing? && m.phase.commit.generation == g && m.phase.done < 4)
  }

  ghost predicate OnlyLoses(a: Dir, b: Dir, n: Name) {
    n in b ==> n in a && b[n] == a[n]
  }

  ghost predicate SettledStays(a: Machine, b: Machine, g: Generation) {
    Settled(a, g) ==>
      Settled(b, g) && OnlyLoses(a.Dir(), b.Dir(), IndexFile(g)) && OnlyLoses(a.Dir(), b.Dir(), StateFile(g))
  }

  ghost predicate StepIsGentle(k: Codec, a: Machine, b: Machine) {
    && ManifestsGoFirst(k, a.Dir(), b.Dir())
    && NamesAppearOnTop(a, b)
    && CompletesAsNewest(k, a.Dir(), b.Dir())
    && LastSequence(a.log) <= LastSequence(b.log)
    && (forall g: Generation :: SettledStays(a, b, g))
  }

  lemma QuietIsGentle(k: Codec, a: Machine, b: Machine)
    requires b.Dir() == a.Dir() && b.log == a.log && a.used <= b.used
    requires b.phase.Writing? && b.phase.done < 4 ==>
               b.phase.commit.generation !in a.used
               || (a.phase.Writing? && a.phase.done < 4 && a.phase.commit == b.phase.commit)
    ensures StepIsGentle(k, a, b)
  {
  }

  lemma StageIsGentle(k: Codec, a: Machine)
    requires Inv(k, a) && a.phase.Writing? && a.phase.done < 5
    ensures StepIsGentle(k, a, Next(k, a, WriteStep))
  {
    hide PayloadAt, Shows, Chain;
    var b := Next(k, a, WriteStep);
    var op := WriteOp(k, a.phase.commit, a.phase.done);
    DirAfter(a, op);
    DirOk(k, a);
    if a.phase.done == 2 || a.phase.done == 3 {
      DataMoveKeeps(k, op, a.Dir());
    } else {
      InertKeeps(k, op, a.Dir());
    }
    assert b.Dir() == Apply(op, a.Dir());
  }

  lemma PublishIsGentle(k: Codec, a: Machine)
    requires Inv(k, a) && a.phase.Writing? && a.phase.done == 5
    ensures StepIsGentle(k, a, Next(k, a, WriteStep))
  {
    var b := Next(k, a, WriteStep);
    var c := a.phase.commit;
    DirAfter(a.(log := b.log), WriteOp(k, c, 5));
    PublishKeeps(k, a);
    InvIsCalm(k, a);
    assert forall s: nat :: s != c.sequence ==> PayloadAt(k, b.Dir(), s) == PayloadAt(k, a.Dir(), s);
  }

  lemma WriteIsGentle(k: Codec, a: Machine)
    requires Inv(k, a) && Enabled(k, a, WriteStep)
    ensures StepIsGentle(k, a, Next(k, a, WriteStep))
  {
    if a.phase.done < 5 {
      StageIsGentle(k, a);
    } else if a.phase.done == 5 {
      PublishIsGentle(k, a);
    } else {
      QuietIsGentle(k, a, Next(k, a, WriteStep));
    }
  }

  lemma RemoveIsGentle(k: Codec, a: Machine, n: Name, b: Machine)
    requires Inv(k, a) && (a.phase.Writing? ==> a.phase.done == 7) && (b.phase.Writing? ==> b.phase.done == 7)
    requires b == a.Do(Remove(n)).(phase := b.phase)
    requires n.IndexFile? || n.StateFile? ==>
               a.phase.Sweeping? && n.generation !in a.phase.generations
    ensures StepIsGentle(k, a, b)
  {
    hide ImagesOk, Chain, Shows, IsHex;
    DirAfter(a, Remove(n));
    forall s: nat | PayloadAt(k, a.Dir(), s).Some? && ManifestFile(s) in b.Dir()
      ensures PayloadAt(k, b.Dir(), s) == PayloadAt(k, a.Dir(), s)
    {
      if n.IndexFile? || n.StateFile? {
        assert PayloadAt(k, a.Dir(), s).value.revision.generation in a.phase.generations;
      }
    }
    forall s: nat | PayloadAt(k, b.Dir(), s).Some? ensures PayloadAt(k, b.Dir(), s) == PayloadAt(k, a.Dir(), s) {
    }
  }

  lemma PhaseChangeIsGentle(k: Codec, a: Machine, act: Action)
    requires Enabled(k, a, act)
    requires act.Begin? || act.StartCollect? || act.StartSweep? || act.FinishSweep? || act.Abort? || act.Pause?
    ensures StepIsGentle(k, a, Next(k, a, act))
  {
    QuietIsGentle(k, a, Next(k, a, act));
  }

  lemma UnlinkIsGentle(k: Codec, a: Machine, act: Action)
    requires Inv(k, a) && Enabled(k, a, act)
    requires act.UnlinkManifest? || act.UnlinkData? || act.CleanUp? || act.RetireLegacy?
    ensures StepIsGentle(k, a, Next(k, a, act))
  {
    var name := if act.UnlinkManifest? then ManifestFile(act.sequence) else act.name;
    RemoveIsGentle(k, a, name, Next(k, a, act));
  }

  lemma EveryStepIsGentle(k: Codec, a: Machine, b: Machine)
    requires Inv(k, a) && Step(k, a, b)
    ensures StepIsGentle(k, a, b)
  {
    hide Inv, Enabled, Next, StepIsGentle;
    var act :| Enabled(k, a, act) && b == Next(k, a, act);
    if act.WriteStep? {
      WriteIsGentle(k, a);
    } else if act.UnlinkManifest? || act.UnlinkData? || act.CleanUp? || act.RetireLegacy? {
      UnlinkIsGentle(k, a, act);
    } else {
      PhaseChangeIsGentle(k, a, act);
    }
  }

  /** What a reader may rely on at any instant. */
  ghost predicate Calm(k: Codec, m: Machine) {
    && (forall s: nat :: PayloadAt(k, m.Dir(), s).Some? ==> s <= LastSequence(m.log))
    && (forall s: nat :: ManifestAt(k, m.Dir(), s).Some? ==>
          Settled(m, ManifestAt(k, m.Dir(), s).value.generation))
  }

  lemma InvIsCalm(k: Codec, m: Machine)
    requires Inv(k, m)
    ensures Calm(k, m)
  {
    DirOk(k, m);
    forall s: nat | ManifestAt(k, m.Dir(), s).Some?
      ensures Settled(m, ManifestAt(k, m.Dir(), s).value.generation)
    {
      assert MentionsAt(k, m.Dir(), s, ManifestAt(k, m.Dir(), s).value.generation);
    }
  }

  // ---------------------------------------------------------------------------- along a history

  ghost predicate GentleAt(k: Codec, h: seq<Machine>, i: nat)
    requires i + 1 < |h|
  {
    StepIsGentle(k, h[i], h[i + 1])
  }

  /** All a reader needs of a history. */
  ghost predicate Watched(k: Codec, h: seq<Machine>) {
    && (forall i :: 0 <= i < |h| ==> Calm(k, h[i]))
    && (forall i: nat :: i + 1 < |h| ==> GentleAt(k, h, i))
  }

  lemma HistoryIsWatched(k: Codec, h: seq<Machine>)
    requires History(k, h)
    ensures Watched(k, h)
  {
    forall i | 0 <= i < |h| ensures Calm(k, h[i]) {
      InvIsCalm(k, h[i]);
    }
    forall i: nat | i + 1 < |h| ensures GentleAt(k, h, i) {
      assert StepsAt(k, h, i);
      EveryStepIsGentle(k, h[i], h[i + 1]);
    }
  }

  lemma {:induction false} LastSequenceRises(k: Codec, h: seq<Machine>, i: nat, j: nat)
    requires Watched(k, h) && i <= j < |h|
    ensures LastSequence(h[i].log) <= LastSequence(h[j].log)
    decreases j - i
  {
    if i < j {
      LastSequenceRises(k, h, i, j - 1);
      assert GentleAt(k, h, j - 1);
    }
  }

  /** A data file seen later was already there, with the same bytes, once its generation had settled. */
  lemma {:induction false} DataWasThere(k: Codec, h: seq<Machine>, i: nat, j: nat, g: Generation)
    requires Watched(k, h) && i <= j < |h| && Settled(h[i], g)
    ensures Settled(h[j], g)
    ensures OnlyLoses(h[i].Dir(), h[j].Dir(), IndexFile(g)) && OnlyLoses(h[i].Dir(), h[j].Dir(), StateFile(g))
    decreases j - i
  {
    if i < j {
      DataWasThere(k, h, i, j - 1, g);
      assert GentleAt(k, h, j - 1);
      assert SettledStays(h[j - 1], h[j], g);
    }
  }

  /** Snapshot `s` was complete, and the same, throughout `h[a..b]`. */
  ghost predicate SteadyAs(k: Codec, h: seq<Machine>, a: nat, b: nat, s: nat, p: Payload)
    requires b < |h|
  {
    forall i :: a <= i <= b ==> PayloadAt(k, h[i].Dir(), s) == Some(p)
  }

  ghost predicate Steady(k: Codec, h: seq<Machine>, a: nat, b: nat, s: nat)
    requires b < |h|
  {
    exists p: Payload :: SteadyAs(k, h, a, b, s, p)
  }

  lemma SteadyShrinks(k: Codec, h: seq<Machine>, h': seq<Machine>, a: nat, a': nat, b': nat, b: nat, s: nat)
    requires a <= a' && b' <= b < |h'| && b' < |h| <= |h'|
    requires forall i :: 0 <= i < |h| ==> h'[i] == h[i]
    ensures Steady(k, h', a, b, s) ==> Steady(k, h, a', b', s)
  {
    if Steady(k, h', a, b, s) {
      var p: Payload :| SteadyAs(k, h', a, b, s, p);
      forall i | a' <= i <= b' ensures PayloadAt(k, h[i].Dir(), s) == Some(p) {
        assert PayloadAt(k, h'[i].Dir(), s) == Some(p);
      }
      assert SteadyAs(k, h, a', b', s, p);
    }
  }

  /** A complete snapshot whose name is still listed at the end was there all along. */
  lemma {:induction false} ListedMeansSteady(k: Codec, h: seq<Machine>, a: nat, b: nat, s: nat, p: Payload)
    requires Watched(k, h) && a <= b < |h|
    requires PayloadAt(k, h[a].Dir(), s) == Some(p) && ManifestFile(s) in h[b].Dir()
    ensures SteadyAs(k, h, a, b, s, p)
    decreases b - a
  {
    if a < b {
      var b' := b - 1;
      assert GentleAt(k, h, b');
      LastSequenceRises(k, h, a, b');
      assert Calm(k, h[a]);
      assert ManifestFile(s) in h[b'].Dir();
      ListedMeansSteady(k, h, a, b', s, p);
      assert PayloadAt(k, h[b'].Dir(), s) == Some(p);
    }
  }

  /** A snapshot complete now but not at `a` was published, as the newest, in between. */
  lemma {:induction false} PublishedMeanwhile(k: Codec, h: seq<Machine>, a: nat, t: nat, s: nat, p: Payload) returns (i: nat)
    requires Watched(k, h) && a <= t < |h|
    requires PayloadAt(k, h[a].Dir(), s) != Some(p) && PayloadAt(k, h[t].Dir(), s) == Some(p)
    ensures a < i <= t && Newest(k, h[i].Dir(), p)
    decreases t - a
  {
    var t' := t - 1;
    if PayloadAt(k, h[t'].Dir(), s) == Some(p) {
      i := PublishedMeanwhile(k, h, a, t', s, p);
    } else {
      assert GentleAt(k, h, t');
      i := t;
    }
  }

  /** `listed` is the manifest listing of `d`, newest first. */
  ghost predicate IsListing(d: Dir, listed: seq<nat>) {
    && (forall i, j :: 0 <= i < j < |listed| ==> listed[i] > listed[j])
    && (forall s: nat :: s in listed <==> ManifestFile(s) in d)
  }

  /**
    Linearizability.  Between two equal listings at instants `a` and `b` the reader found every name
    before `listed[n]` unreadable at some point and read `p` at `listed[n]` at instant `t`.  Then `p`
    was the newest complete snapshot at some instant of the call.
    */
  lemma ReaderLinearizes(k: Codec, h: seq<Machine>, a: nat, t: nat, b: nat, listed: seq<nat>, n: nat, p: Payload)
    returns (i: nat)
    requires Watched(k, h) && a <= t <= b < |h|
    requires IsListing(h[a].Dir(), listed) && IsListing(h[b].Dir(), listed)
    requires n < |listed| && PayloadAt(k, h[t].Dir(), listed[n]) == Some(p)
    requires forall j :: 0 <= j < n ==> !Steady(k, h, a, b, listed[j])
    ensures a <= i <= t && Newest(k, h[i].Dir(), p)
  {
    if PayloadAt(k, h[a].Dir(), listed[n]) == Some(p) {
      i := a;
      forall s: nat | s > listed[n] ensures PayloadAt(k, h[a].Dir(), s) == None {
        if PayloadAt(k, h[a].Dir(), s).Some? {
          UnreadMeansIncomplete(k, h, a, b, listed, n, s);
        }
      }
    } else {
      i := PublishedMeanwhile(k, h, a, t, listed[n], p);
    }
  }

  lemma UnreadMeansIncomplete(k: Codec, h: seq<Machine>, a: nat, b: nat, listed: seq<nat>, n: nat, s: nat)
    requires Watched(k, h) && a <= b < |h| && n <= |listed|
    requires IsListing(h[a].Dir(), listed) && IsListing(h[b].Dir(), listed)
    requires forall j :: 0 <= j < n ==> !Steady(k, h, a, b, listed[j])
    requires n < |listed| ==> s > listed[n]
    ensures PayloadAt(k, h[a].Dir(), s) == None
  {
    if PayloadAt(k, h[a].Dir(), s).Some? {
      var p := PayloadAt(k, h[a].Dir(), s).value;
      assert ManifestFile(s) in h[a].Dir();
      var j :| 0 <= j < |listed| && listed[j] == s;
      ListedMeansSteady(k, h, a, b, s, p);
      assert Steady(k, h, a, b, listed[j]);
      assert false;
    }
  }

  /** If no listed name could be read, nothing at all was complete when the listing was taken. */
  lemma NothingReadMeansNothingComplete(k: Codec, h: seq<Machine>, a: nat, b: nat, listed: seq<nat>)
    requires Watched(k, h) && a <= b < |h|
    requires IsListing(h[a].Dir(), listed) && IsListing(h[b].Dir(), listed)
    requires forall j :: 0 <= j < |listed| ==> !Steady(k, h, a, b, listed[j])
    ensures NothingComplete(k, h[a].Dir())
  {
    forall s: nat ensures PayloadAt(k, h[a].Dir(), s) == None {
      UnreadMeansIncomplete(k, h, a, b, listed, |listed|, s);
    }
  }
}
