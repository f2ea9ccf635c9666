/**
  The anti-rollback guard: when may a pointer replace the active one, and what does a whole run of
  accepted promotes guarantee?  Versions are parsed by any partial function into any totally ordered
  set, so distinct labels may denote the same version and some denote none.
  */
module Freshness {
  import opened Common
  import opened Manifest

  // The version parser and its order (PEP 440 in the program).
  datatype Scheme<!V(!new)> = Scheme(parse: string -> Option<V>, less: (V, V) -> bool) {
    ghost predicate IsOrder() {
      && (forall a: V :: !less(a, a))
      && (forall a: V, b: V :: a != b ==> less(a, b) != less(b, a))
      && (forall a: V, b: V, c: V :: less(a, b) && less(b, c) ==> less(a, c))
    }
  }

  datatype Freshness = Fresh | Stale | Undecidable

  datatype Refusal = StaleSequence | StaleVersion | Unprovable

  /** `_sequence_verdict`. */
  function SequenceVerdict(incoming: VersionPointer, active: VersionPointer): Freshness {
    if active.sequence.None? then Undecidable
    else if IsFreshSequence(incoming, active) then Fresh
    else Stale
  }

  /** `_version_verdict`: only a strictly greater version is proof. */
  function VersionVerdict<V(!new)>(s: Scheme<V>, incoming: string, active: string): Freshness {
    match (s.parse(incoming), s.parse(active))
    case (Some(i), Some(a)) => if s.less(i, a) then Stale else if s.less(a, i) then Fresh else Undecidable
    case _ => Undecidable
  }

  /** `_freshness_refusal`. */
  function FreshnessRefusal(sequence: Freshness, version: Freshness): Option<Refusal> {
    if sequence.Stale? then Some(StaleSequence)
    else if version.Stale? then Some(StaleVersion)
    else if sequence.Fresh? || version.Fresh? then None
    else Some(Unprovable)
  }

  /** `_downgrade_reason`. */
  function DowngradeReason<V(!new)>(s: Scheme<V>, incoming: VersionPointer, active: VersionPointer): Option<Refusal> {
    if incoming == active then None
    else FreshnessRefusal(SequenceVerdict(incoming, active), VersionVerdict(s, incoming.version, active.version))
  }

  predicate Accepted<V(!new)>(s: Scheme<V>, incoming: VersionPointer, active: VersionPointer) {
    DowngradeReason(s, incoming, active).None?
  }

  /**
    The guard in the fields themselves.  The active pointer is accepted again; any other is refused for
    a sequence that is missing or not higher than the active one, then for a lower version, and then
    unless the sequence or a strictly higher version is proof.
    */
  lemma AcceptedExactlyWhen<V(!new)>(s: Scheme<V>, incoming: VersionPointer, active: VersionPointer)
    ensures Accepted(s, incoming, active) <==>
              || incoming == active
              || (&& (active.sequence.None? ||
                      (incoming.sequence.Some? && incoming.sequence.value > active.sequence.value))
                  && !(s.parse(incoming.version).Some? && s.parse(active.version).Some? &&
                       s.less(s.parse(incoming.version).value, s.parse(active.version).value))
                  && (active.sequence.Some? ||
                      (s.parse(incoming.version).Some? && s.parse(active.version).Some? &&
                       s.less(s.parse(active.version).value, s.parse(incoming.version).value))))
    ensures DowngradeReason(s, incoming, active) == Some(StaleSequence) <==>
              && incoming != active && active.sequence.Some?
              && (incoming.sequence.None? || incoming.sequence.value <= active.sequence.value)
    ensures DowngradeReason(s, incoming, active) == Some(StaleVersion) <==>
              && incoming != active
              && (active.sequence.None? || (incoming.sequence.Some? && incoming.sequence.value > active.sequence.value))
              && s.parse(incoming.version).Some? && s.parse(active.version).Some?
              && s.less(s.parse(incoming.version).value, s.parse(active.version).value)
  {
  }

  // ------------------------------------------------------------------------------------- the rank

  /**
    The strict partial order every accepted change climbs: a pointer with a sequence is above every
    pointer without one; among the former the sequence decides, among the latter the version.
    */
  predicate Above<V(!new)>(s: Scheme<V>, b: VersionPointer, a: VersionPointer) {
    if a.sequence.Some? then b.sequence.Some? && b.sequence.value > a.sequence.value
    else
      || b.sequence.Some?
      || (s.parse(a.version).Some? && s.parse(b.version).Some? && s.less(s.parse(a.version).value, s.parse(b.version).value))
  }

  lemma AcceptedClimbs<V(!new)>(s: Scheme<V>, incoming: VersionPointer, active: VersionPointer)
    requires Accepted(s, incoming, active)
    ensures incoming == active || Above(s, incoming, active)
  {
  }

  lemma AboveTransitive<V(!new)>(s: Scheme<V>, a: VersionPointer, b: VersionPointer, c: VersionPointer)
    requires s.IsOrder() && Above(s, b, a) && Above(s, c, b)
    ensures Above(s, c, a)
  {
    if a.sequence.None? && b.sequence.None? && c.sequence.None? {
      var x, y, z := s.parse(a.version).value, s.parse(b.version).value, s.parse(c.version).value;
      assert s.less(x, y) && s.less(y, z);
    }
  }

  lemma AboveIrreflexive<V(!new)>(s: Scheme<V>, a: VersionPointer)
    requires s.IsOrder()
    ensures !Above(s, a, a)
  {
  }

  // ------------------------------------------------------------------------------------ whole runs

  ghost predicate Promotes<V(!new)>(s: Scheme<V>, run: seq<VersionPointer>, i: nat)
    requires i + 1 < |run|
  {
    Accepted(s, run[i + 1], run[i])
  }

  /** The successive active pointers of a run of accepted promotes. */
  ghost predicate PromoteRun<V(!new)>(s: Scheme<V>, run: seq<VersionPointer>) {
    forall i: nat :: i + 1 < |run| ==> Promotes(s, run, i)
  }

  lemma {:induction false} RunClimbs<V(!new)>(s: Scheme<V>, run: seq<VersionPointer>, i: nat, j: nat)
    requires s.IsOrder() && PromoteRun(s, run) && i <= j < |run|
    ensures run[j] == run[i] || Above(s, run[j], run[i])
    decreases j - i
  {
    if i < j {
      RunClimbs(s, run, i, j - 1);
      assert Promotes(s, run, j - 1);
      AcceptedClimbs(s, run[j], run[j - 1]);
      if run[j - 1] != run[i] && run[j] != run[j - 1] {
        AboveTransitive(s, run[i], run[j - 1], run[j]);
      }
    }
  }

  /** A pointer once replaced never becomes active again: an old signed pointer cannot be replayed. */
  lemma ReplacedNeverReturns<V(!new)>(s: Scheme<V>, run: seq<VersionPointer>, i: nat, j: nat, k: nat)
    requires s.IsOrder() && PromoteRun(s, run) && i <= j <= k < |run|
    ensures run[k] == run[i] ==> run[j] == run[i]
  {
    RunClimbs(s, run, i, j);
    RunClimbs(s, run, j, k);
    if run[k] == run[i] && run[j] != run[i] {
      AboveTransitive(s, run[i], run[j], run[k]);
      AboveIrreflexive(s, run[i]);
    }
  }

  /** Once the active pointer carries a sequence, it always does, and a change strictly raises it. */
  lemma SequenceRises<V(!new)>(s: Scheme<V>, run: seq<VersionPointer>, i: nat, j: nat)
    requires s.IsOrder() && PromoteRun(s, run) && i <= j < |run| && run[i].sequence.Some?
    ensures run[j].sequence.Some?
    ensures run[j] == run[i] || run[j].sequence.value > run[i].sequence.value
  {
    RunClimbs(s, run, i, j);
  }

  // -------------------------------------------------------------------- where versions may go down

  ghost predicate Parses<V(!new)>(s: Scheme<V>, p: VersionPointer) {
    s.parse(p.version).Some?
  }

  /** `b`'s version is below `a`'s. */
  ghost predicate Lower<V(!new)>(s: Scheme<V>, b: VersionPointer, a: VersionPointer) {
    Parses(s, a) && Parses(s, b) && s.less(s.parse(b.version).value, s.parse(a.version).value)
  }

  /** As long as every version in between parses, versions never go down. */
  lemma {:induction false} ParsedVersionsNeverFall<V(!new)>(s: Scheme<V>, run: seq<VersionPointer>, i: nat, j: nat)
    requires s.IsOrder() && PromoteRun(s, run) && i <= j < |run|
    requires forall m :: i <= m <= j ==> Parses(s, run[m])
    ensures !Lower(s, run[j], run[i])
    decreases j - i
  {
    if i < j {
      ParsedVersionsNeverFall(s, run, i, j - 1);
      assert Promotes(s, run, j - 1);
      assert Parses(s, run[i]) && Parses(s, run[j - 1]) && Parses(s, run[j]);
      assert !Lower(s, run[j], run[j - 1]);
    }
  }

  /**
    Two accepted promotes may lower the version exactly when the one in the middle does not parse,
    given any lower version label at all: acceptance is not transitive.
    */
  lemma TwoStepsLowerExactlyWhen<V(!new)>(s: Scheme<V>, a: VersionPointer, mid: VersionPointer, lower: string)
    requires s.IsOrder() && Parses(s, a) && Accepted(s, mid, a)
    requires s.parse(lower).Some? && s.less(s.parse(lower).value, s.parse(a.version).value)
    ensures (exists b: VersionPointer :: Accepted(s, b, mid) && Lower(s, b, a)) <==> !Parses(s, mid)
  {
    if Parses(s, mid) {
      forall b: VersionPointer | Accepted(s, b, mid) ensures !Lower(s, b, a) {
        var run := [a, mid, b];
        assert PromoteRun(s, run) by {
          forall i: nat | i + 1 < |run| ensures Promotes(s, run, i) {
          }
        }
        if Parses(s, b) {
          ParsedVersionsNeverFall(s, run, 0, 2);
        }
      }
    } else {
      assert mid.sequence.Some?;
      var b := mid.(version := lower, sequence := Some(mid.sequence.value + 1));
      assert Accepted(s, b, mid) && Lower(s, b, a);
    }
  }

  /** The concrete run: "2.0" at sequence 1, "nightly" at 2, "1.0" at 3. */
  lemma VersionsCanFall<V(!new)>(s: Scheme<V>, p: VersionPointer) returns (run: seq<VersionPointer>)
    requires s.parse("2.0").Some? && s.parse("1.0").Some? && s.parse("nightly").None?
    requires s.less(s.parse("1.0").value, s.parse("2.0").value)
    ensures |run| == 3 && PromoteRun(s, run) && Lower(s, run[2], run[0])
  {
    run := [p.(version := "2.0", sequence := Some(1)),
            p.(version := "nightly", sequence := Some(2)),
            p.(version := "1.0", sequence := Some(3))];
    forall i: nat | i + 1 < |run| ensures Promotes(s, run, i) {
    }
  }

  /** An active pointer can ever be replaced by another exactly when it has a sequence or a version some version exceeds. */
  lemma ReplaceableExactlyWhen<V(!new)>(s: Scheme<V>, active: VersionPointer)
    requires s.IsOrder()
    ensures (exists next: VersionPointer :: next != active && Accepted(s, next, active)) <==>
            (active.sequence.Some? ||
             (Parses(s, active) && exists newer: string :: s.parse(newer).Some? && s.less(s.parse(active.version).value, s.parse(newer).value)))
  {
    if active.sequence.Some? {
      var next := active.(sequence := Some(active.sequence.value + 1));
      assert next != active && Accepted(s, next, active);
    } else if newer: string :| Parses(s, active) && s.parse(newer).Some? && s.less(s.parse(active.version).value, s.parse(newer).value) {
      var next := active.(version := newer);
      assert next.version != active.version;
      assert next != active && Accepted(s, next, active);
    } else {
      forall next: VersionPointer | Accepted(s, next, active) ensures next == active {
        assert next == active || VersionVerdict(s, next.version, active.version).Fresh?;
      }
    }
  }
}
