/**
  The state of the tombstoned vector index as a value, the plain map it stands for, and what a
  search over its physical rows is worth.  Scores are reals: rounding is not modelled.
  */
module VectorCatalogue {
  import opened Common

  type Id = string

  // A metadata scalar; booleans and numbers that compare equal are one Number.
  datatype Scalar = Null | Text(text: string) | Number(value: real)

  type Metadata = map<string, Scalar>
  type Vector = seq<real>
  type Score = (Vector, Vector) -> real

  datatype Config = Config(dimension: nat, metric: string, m: nat, efConstruction: nat, efSearch: nat)

  datatype Embedding = Embedding(id: Id, vector: Vector, metadata: Metadata)

  datatype Hit = Hit(score: real, row: nat)

  datatype Found = Found(id: Id, distance: real)

  datatype Index = Index(
    config: Config, rows: seq<Vector>, ids: seq<Id>, live: map<Id, Vector>,
    rowOf: map<Id, nat>, meta: map<Id, Metadata>, tombstoned: set<Id>)

  // ------------------------------------------------------------------------------ configuration

  const SUPPORTED_METRIC := "cosine"

  /** `_honoured`: the one metric there is, and no graph knob moved from its default. */
  predicate Honoured(config: Config, defaults: Config) {
    && config.metric == SUPPORTED_METRIC
    && config.m == defaults.m
    && config.efConstruction == defaults.efConstruction
    && config.efSearch == defaults.efSearch
  }

  // ------------------------------------------------------------------------------------ filters

  /** `_passes`; a filter asking for Null is met by an absent key. */
  predicate Passes(meta: Metadata, filters: Option<Metadata>) {
    filters.Some? ==>
      forall key :: key in filters.value ==> (if key in meta then meta[key] else Null) == filters.value[key]
  }

  /** A filter is the conjunction of its keys: nothing asked passes, and each key asked must be met. */
  lemma PassesKeyByKey(meta: Metadata, rest: Metadata, key: string, value: Scalar)
    requires key !in rest
    ensures Passes(meta, None) && Passes(meta, Some(map[]))
    ensures Passes(meta, Some(rest[key := value])) <==>
              (if key in meta then meta[key] else Null) == value && Passes(meta, Some(rest))
  {
    var wider := rest[key := value];
    assert forall k :: k in rest ==> k in wider && wider[k] == rest[k];
  }

  /** No filter at all, or an empty one: the program treats both alike. */
  predicate Unfiltered(filters: Option<Metadata>) {
    filters == None || filters.value == map[]
  }

  // ---------------------------------------------------------------------------------- invariant

  ghost predicate LastRow(ids: seq<Id>, id: Id, row: nat) {
    row < |ids| && ids[row] == id && forall later :: row < later < |ids| ==> ids[later] != id
  }

  /** `rowOf` names each live id's last row, which holds its vector. */
  ghost predicate RowsNamed(ix: Index) {
    && |ix.rows| == |ix.ids|
    && ix.live.Keys == ix.rowOf.Keys
    && forall id :: id in ix.rowOf ==> LastRow(ix.ids, id, ix.rowOf[id]) && ix.rows[ix.rowOf[id]] == ix.live[id]
  }

  /** Every physical row belongs to a live or a deleted id. */
  ghost predicate Covered(ix: Index) {
    forall row :: 0 <= row < |ix.ids| ==> ix.ids[row] in ix.live || ix.ids[row] in ix.tombstoned
  }

  ghost predicate Consistent(ix: Index) {
    && RowsNamed(ix)
    && Covered(ix)
    && ix.live.Keys == ix.meta.Keys
    && ix.tombstoned !! ix.live.Keys
    && (forall row :: 0 <= row < |ix.rows| ==> |ix.rows[row]| == ix.config.dimension)
  }

  /** The map from id to vector and metadata that the index stands for. */
  ghost function Entries(ix: Index): map<Id, Embedding>
    requires Consistent(ix)
  {
    map id | id in ix.live :: Embedding(id, ix.live[id], ix.meta[id])
  }

  ghost predicate Authoritative(ix: Index, row: nat) {
    row < |ix.ids| && ix.ids[row] in ix.rowOf && ix.rowOf[ix.ids[row]] == row
  }

  ghost function AuthoritativeRows(ix: Index): set<nat> {
    set row | 0 <= row < |ix.ids| && Authoritative(ix, row)
  }

  lemma {:induction false} SubsetSize<T>(a: set<T>, b: set<T>)
    requires a <= b
    ensures |a| <= |b|
  {
    assert b == a + (b - a);
  }

  lemma {:induction false} RangeSize(n: nat) returns (range: set<nat>)
    ensures forall row: nat :: row in range <==> row < n
    ensures |range| == n
  {
    if n == 0 {
      range := {};
    } else {
      var smaller := RangeSize(n - 1);
      range := smaller + {n - 1};
    }
  }

  /** Distinct ids of `ids` at distinct rows: the image of a set of ids under `rowOf` keeps its size. */
  lemma {:induction false} RowsOfSize(ix: Index, keys: set<Id>)
    requires Consistent(ix) && keys <= ix.rowOf.Keys
    ensures |set id | id in keys :: ix.rowOf[id]| == |keys|
  {
    if keys != {} {
      var id :| id in keys;
      RowsOfSize(ix, keys - {id});
      var image, rest := set x | x in keys :: ix.rowOf[x], set x | x in keys - {id} :: ix.rowOf[x];
      assert image == rest + {ix.rowOf[id]};
      assert ix.rowOf[id] !in rest by {
        forall x | x in keys - {id} ensures ix.rowOf[x] != ix.rowOf[id] {
          assert ix.ids[ix.rowOf[x]] == x;
        }
      }
    } else {
      assert (set id | id in keys :: ix.rowOf[id]) == {};
    }
  }

  ghost function DeadRows(ix: Index): set<nat> {
    set row | 0 <= row < |ix.rows| && !Authoritative(ix, row)
  }

  /** `rowOf` is a bijection from the live ids onto the authoritative rows. */
  lemma LiveRowsCount(ix: Index)
    requires Consistent(ix)
    ensures |AuthoritativeRows(ix)| == |ix.live|
  {
    RowsOfSize(ix, ix.rowOf.Keys);
    var image := set id | id in ix.rowOf.Keys :: ix.rowOf[id];
    forall row | row in AuthoritativeRows(ix) ensures row in image {
      assert ix.ids[row] in ix.rowOf.Keys;
    }
    forall row | row in image ensures row in AuthoritativeRows(ix) {
      var id :| id in ix.rowOf.Keys && ix.rowOf[id] == row;
      assert Authoritative(ix, row);
    }
    assert AuthoritativeRows(ix) == image;
    assert |ix.live.Keys| == |ix.live|;
  }

  /** Every other physical row is dead: deleted, or superseded by a re-insert. */
  lemma DeadRowsCount(ix: Index)
    requires Consistent(ix)
    ensures |DeadRows(ix)| == |ix.rows| - |ix.live|
  {
    LiveRowsCount(ix);
    var range := RangeSize(|ix.rows|);
    assert |ix.ids| == |ix.rows|;
    hide Consistent, Authoritative;
    SplitSize(range, DeadRows(ix), AuthoritativeRows(ix));
  }

  lemma SplitSize<T>(whole: set<T>, a: set<T>, b: set<T>)
    requires forall x :: x in whole <==> x in a || x in b
    requires a !! b
    ensures |whole| == |a| + |b|
  {
    assert whole == a + b;
  }

  // -------------------------------------------------------------------------------- flat search

  ghost predicate Ranked(hits: seq<Hit>) {
    && (forall i, j :: 0 <= i < j < |hits| ==> hits[i].score >= hits[j].score)
    && (forall i, j :: 0 <= i < j < |hits| ==> hits[i].row != hits[j].row)
  }

  ghost predicate Scored(score: Score, rows: seq<Vector>, q: Vector, hits: seq<Hit>) {
    forall i :: 0 <= i < |hits| ==> hits[i].row < |rows| && hits[i].score == score(q, rows[hits[i].row])
  }

  ghost predicate Fetched(hits: seq<Hit>, row: nat) {
    exists i :: 0 <= i < |hits| && hits[i].row == row
  }

  ghost function FetchedRows(hits: seq<Hit>): set<nat> {
    set i | 0 <= i < |hits| :: hits[i].row
  }

  /** A flat index answers with some best `n` rows, best first, breaking ties as it likes. */
  ghost predicate IsFlatSearch(score: Score, rows: seq<Vector>, q: Vector, n: nat, hits: seq<Hit>) {
    && |hits| == n
    && Scored(score, rows, q, hits)
    && Ranked(hits)
    && (forall row: nat, i :: row < |rows| && !Fetched(hits, row) && 0 <= i < n ==> score(q, rows[row]) <= hits[i].score)
  }

  lemma {:induction false} FetchedRowsSize(hits: seq<Hit>)
    requires Ranked(hits)
    ensures |FetchedRows(hits)| == |hits|
  {
    if hits == [] {
      assert FetchedRows(hits) == {};
    } else {
      var n := |hits| - 1;
      FetchedRowsSize(hits[..n]);
      assert FetchedRows(hits) == FetchedRows(hits[..n]) + {hits[n].row} by {
        forall row | row in FetchedRows(hits) ensures row in FetchedRows(hits[..n]) + {hits[n].row} {
          var i :| 0 <= i < |hits| && hits[i].row == row;
          assert i == n || hits[..n][i].row == row;
        }
        forall row | row in FetchedRows(hits[..n]) ensures row in FetchedRows(hits) {
          var i :| 0 <= i < n && hits[..n][i].row == row;
          assert hits[i].row == row;
        }
      }
      assert hits[n].row !in FetchedRows(hits[..n]);
    }
  }

  // --------------------------------------------------------------------------- collecting the hits

  /** `_candidate`: only an entity's current row may speak for it, and only if it passes the filter. */
  predicate Accepted(ix: Index, row: nat, filters: Option<Metadata>) {
    && row < |ix.ids|
    && ix.ids[row] in ix.rowOf && ix.rowOf[ix.ids[row]] == row
    && ix.ids[row] in ix.meta && Passes(ix.meta[ix.ids[row]], filters)
  }

  function Gathered(ix: Index, hits: seq<Hit>, filters: Option<Metadata>): (found: seq<Found>)
    ensures |found| <= |hits|
  {
    if hits == [] then []
    else
      var n := |hits| - 1;
      Gathered(ix, hits[..n], filters) +
      (if Accepted(ix, hits[n].row, filters) then [Found(ix.ids[hits[n].row], 1.0 - hits[n].score)] else [])
  }

  lemma GatheredNone(ix: Index, hits: seq<Hit>, filters: Option<Metadata>)
    ensures Gathered(ix, hits[..0], filters) == []
  {
  }

  lemma GatheredNext(ix: Index, hits: seq<Hit>, filters: Option<Metadata>, i: nat)
    requires i < |hits|
    ensures Gathered(ix, hits[..i + 1], filters) ==
            Gathered(ix, hits[..i], filters) +
            (if Accepted(ix, hits[i].row, filters) then [Found(ix.ids[hits[i].row], 1.0 - hits[i].score)] else [])
  {
    assert hits[..i + 1][..i] == hits[..i];
  }

  function Top<T>(s: seq<T>, k: nat): (r: seq<T>) {
    if |s| <= k then s else s[..k]
  }

  function FetchCount(ix: Index, k: nat): nat
  {
    if |ix.rows| >= |ix.live| && k + (|ix.rows| - |ix.live|) < |ix.rows| then k + (|ix.rows| - |ix.live|) else |ix.rows|
  }

  lemma {:induction false} GatheredPrefix(ix: Index, hits: seq<Hit>, filters: Option<Metadata>, n: nat)
    requires n <= |hits|
    ensures Gathered(ix, hits[..n], filters) <= Gathered(ix, hits, filters)
  {
    if n < |hits| {
      var m := |hits| - 1;
      GatheredPrefix(ix, hits[..m], filters, n);
      assert hits[..m][..n] == hits[..n];
    } else {
      assert hits[..n] == hits;
    }
  }

  ghost function Distance(score: Score, ix: Index, q: Vector, id: Id): real
    requires id in ix.live
  {
    1.0 - score(q, ix.live[id])
  }

  ghost predicate Matches(ix: Index, filters: Option<Metadata>, id: Id) {
    id in ix.live && id in ix.meta && Passes(ix.meta[id], filters)
  }

  ghost function Matching(ix: Index, filters: Option<Metadata>): set<Id> {
    set id | id in ix.live && Matches(ix, filters, id)
  }

  /** A match is a live entity that agrees with the filter on every key the filter names. */
  lemma MatchingKeyByKey(ix: Index, filters: Option<Metadata>)
    requires ix.live.Keys == ix.meta.Keys
    ensures Matching(ix, filters) ==
            set id | id in ix.meta &&
              (filters == None ||
               forall key :: key in filters.value ==> (if key in ix.meta[id] then ix.meta[id][key] else Null) == filters.value[key])
  {
  }

  ghost predicate SoundFind(score: Score, ix: Index, q: Vector, filters: Option<Metadata>, f: Found) {
    Matches(ix, filters, f.id) && f.distance == Distance(score, ix, q, f.id)
  }

  ghost function FoundIds(found: seq<Found>): set<Id> {
    set i | 0 <= i < |found| :: found[i].id
  }

  /** Distinct matching entities with their true distances, nearest first. */
  ghost predicate SoundFinds(score: Score, ix: Index, q: Vector, filters: Option<Metadata>, found: seq<Found>) {
    && (forall i :: 0 <= i < |found| ==> SoundFind(score, ix, q, filters, found[i]))
    && (forall i, j :: 0 <= i < j < |found| ==> found[i].distance <= found[j].distance)
    && (forall i, j :: 0 <= i < j < |found| ==> found[i].id != found[j].id)
  }

  /** Which hit produced the `j`-th result. */
  ghost function Source(ix: Index, hits: seq<Hit>, filters: Option<Metadata>, j: nat): (i: nat)
    requires j < |Gathered(ix, hits, filters)|
    ensures i < |hits| && Accepted(ix, hits[i].row, filters)
    ensures Gathered(ix, hits, filters)[j] == Found(ix.ids[hits[i].row], 1.0 - hits[i].score)
  {
    var n := |hits| - 1;
    if j < |Gathered(ix, hits[..n], filters)| then Source(ix, hits[..n], filters, j) else n
  }

  lemma {:induction false} SourceRises(ix: Index, hits: seq<Hit>, filters: Option<Metadata>, i: nat, j: nat)
    requires i < j < |Gathered(ix, hits, filters)|
    ensures Source(ix, hits, filters, i) < Source(ix, hits, filters, j)
  {
    var n := |hits| - 1;
    if j < |Gathered(ix, hits[..n], filters)| {
      SourceRises(ix, hits[..n], filters, i, j);
    }
  }

  lemma GatheredIsSound(score: Score, ix: Index, q: Vector, filters: Option<Metadata>, hits: seq<Hit>)
    requires Consistent(ix) && Scored(score, ix.rows, q, hits) && Ranked(hits)
    ensures SoundFinds(score, ix, q, filters, Gathered(ix, hits, filters))
  {
    var found := Gathered(ix, hits, filters);
    forall i | 0 <= i < |found| ensures SoundFind(score, ix, q, filters, found[i]) {
      var h := Source(ix, hits, filters, i);
      assert ix.rows[hits[h].row] == ix.live[found[i].id];
    }
    forall i, j | 0 <= i < j < |found| ensures found[i].distance <= found[j].distance && found[i].id != found[j].id {
      SourceRises(ix, hits, filters, i, j);
      var h, l := Source(ix, hits, filters, i), Source(ix, hits, filters, j);
      assert hits[h].score >= hits[l].score && hits[h].row != hits[l].row;
    }
  }

  lemma {:induction false} GatheredIsComplete(ix: Index, filters: Option<Metadata>, hits: seq<Hit>, i: nat)
    requires i < |hits| && Accepted(ix, hits[i].row, filters)
    ensures ix.ids[hits[i].row] in FoundIds(Gathered(ix, hits, filters))
  {
    var n := |hits| - 1;
    var found := Gathered(ix, hits, filters);
    if i == n {
      assert found[|found| - 1].id == ix.ids[hits[i].row];
    } else {
      GatheredIsComplete(ix, filters, hits[..n], i);
      var early := Gathered(ix, hits[..n], filters);
      var j :| 0 <= j < |early| && early[j].id == ix.ids[hits[i].row];
      assert found[j] == early[j];
    }
  }

  lemma {:induction false} FoundIdsSize(found: seq<Found>)
    requires forall i, j :: 0 <= i < j < |found| ==> found[i].id != found[j].id
    ensures |FoundIds(found)| == |found|
  {
    if found == [] {
      assert FoundIds(found) == {};
    } else {
      var n := |found| - 1;
      FoundIdsSize(found[..n]);
      assert FoundIds(found) == FoundIds(found[..n]) + {found[n].id} by {
        forall id | id in FoundIds(found) ensures id in FoundIds(found[..n]) + {found[n].id} {
          var i :| 0 <= i < |found| && found[i].id == id;
          assert i == n || found[..n][i].id == id;
        }
        forall id | id in FoundIds(found[..n]) ensures id in FoundIds(found) {
          var i :| 0 <= i < n && found[..n][i].id == id;
          assert found[i].id == id;
        }
      }
      assert found[n].id !in FoundIds(found[..n]);
    }
  }

  // ------------------------------------------------------------------ why the over-fetch is enough

  /** Among the rows fetched for `k`, either every row is there or at least `k` speak for live entities. */
  lemma OverFetchReachesLive(ix: Index, k: nat, hits: seq<Hit>)
    requires Consistent(ix) && |hits| == FetchCount(ix, k) && Ranked(hits) && InRange(ix, hits)
    ensures |FetchedRows(hits) * AuthoritativeRows(ix)| >= k || (forall row: nat :: row < |ix.rows| ==> Fetched(hits, row))
  {
    DeadRowsCount(ix);
    FetchedRowsSize(hits);
    hide Consistent;
    if |hits| == |ix.rows| {
      AllFetched(ix, hits);
    } else {
      var dead, live := FetchedRows(hits) * DeadRows(ix), FetchedRows(hits) * AuthoritativeRows(ix);
      forall row | row in FetchedRows(hits) ensures row in dead + live {
        assert row < |ix.rows|;
      }
      assert FetchedRows(hits) == dead + live;
      SubsetSize(dead, DeadRows(ix));
    }
  }

  ghost predicate InRange(ix: Index, hits: seq<Hit>) {
    |ix.ids| == |ix.rows| && forall i :: 0 <= i < |hits| ==> hits[i].row < |ix.rows|
  }

  lemma AllFetched(ix: Index, hits: seq<Hit>)
    requires Ranked(hits) && |hits| == |ix.rows| && InRange(ix, hits)
    ensures forall row: nat :: row < |ix.rows| ==> Fetched(hits, row)
  {
    FetchedRowsSize(hits);
    var range := RangeSize(|ix.rows|);
    assert FetchedRows(hits) <= range;
    assert range == FetchedRows(hits) + (range - FetchedRows(hits));
    forall row: nat | row < |ix.rows| ensures Fetched(hits, row) {
      assert row in FetchedRows(hits);
    }
  }

  /** The other live entities at most as far from `q` as `id`. */
  ghost function NoFarther(score: Score, ix: Index, q: Vector, id: Id): set<Id>
    requires id in ix.live
  {
    set e | e in ix.live && e != id && Distance(score, ix, q, e) <= Distance(score, ix, q, id)
  }

  lemma LiveIdsOfRows(ix: Index, rows: set<nat>)
    requires Consistent(ix) && rows <= AuthoritativeRows(ix)
    ensures |set row | row in rows :: ix.ids[row]| == |rows|
    ensures forall row :: row in rows ==> ix.ids[row] in ix.live
  {
    var ids := set row | row in rows :: ix.ids[row];
    RowsOfSize(ix, ids);
    assert rows == set id | id in ids :: ix.rowOf[id] by {
      forall row | row in rows ensures row in set id | id in ids :: ix.rowOf[id] {
        assert ix.ids[row] in ids && ix.rowOf[ix.ids[row]] == row;
      }
    }
  }

  /** A matching entity with fewer than `k` live entities as near or nearer is always returned. */
  lemma NearMatchIsFound(score: Score, ix: Index, q: Vector, k: nat, filters: Option<Metadata>, hits: seq<Hit>, id: Id)
    requires Consistent(ix) && IsFlatSearch(score, ix.rows, q, FetchCount(ix, k), hits)
    requires Matches(ix, filters, id) && |NoFarther(score, ix, q, id)| < k
    ensures id in FoundIds(Top(Gathered(ix, hits, filters), k))
  {
    var found := Gathered(ix, hits, filters);
    NearRowIsFetched(score, ix, q, k, hits, id);
    FetchedMatchIsFound(ix, filters, hits, id);
    GatheredIsSound(score, ix, q, filters, hits);
    FoundEarly(score, ix, q, k, filters, found, id);
  }

  lemma NearRowIsFetched(score: Score, ix: Index, q: Vector, k: nat, hits: seq<Hit>, id: Id)
    requires Consistent(ix) && IsFlatSearch(score, ix.rows, q, FetchCount(ix, k), hits)
    requires id in ix.live && |NoFarther(score, ix, q, id)| < k
    ensures Fetched(hits, ix.rowOf[id])
  {
    OverFetchReachesLive(ix, k, hits);
    var near := FetchedRows(hits) * AuthoritativeRows(ix);
    LiveIdsOfRows(ix, near);
    var ids := set row | row in near :: ix.ids[row];
    if !Fetched(hits, ix.rowOf[id]) {
      forall e | e in ids ensures e in NoFarther(score, ix, q, id) {
        var row :| row in near && ix.ids[row] == e;
        FetchedIsNoFarther(score, ix, q, FetchCount(ix, k), hits, id, row);
      }
      SubsetSize(ids, NoFarther(score, ix, q, id));
    }
  }

  lemma FetchedIsNoFarther(score: Score, ix: Index, q: Vector, n: nat, hits: seq<Hit>, id: Id, row: nat)
    requires Consistent(ix) && IsFlatSearch(score, ix.rows, q, n, hits)
    requires id in ix.live && !Fetched(hits, ix.rowOf[id]) && row in FetchedRows(hits) && Authoritative(ix, row)
    ensures ix.ids[row] in NoFarther(score, ix, q, id)
  {
    var i :| 0 <= i < |hits| && hits[i].row == row;
    assert score(q, ix.rows[ix.rowOf[id]]) <= hits[i].score;
    assert Fetched(hits, row);
  }

  lemma FoundEarly(score: Score, ix: Index, q: Vector, k: nat, filters: Option<Metadata>, found: seq<Found>, id: Id)
    requires Consistent(ix) && SoundFinds(score, ix, q, filters, found)
    requires id in ix.live && id in FoundIds(found) && |NoFarther(score, ix, q, id)| < k
    ensures id in FoundIds(Top(found, k))
  {
    var j :| 0 <= j < |found| && found[j].id == id;
    if j < k {
      assert Top(found, k)[j].id == id;
    } else {
      var before := FoundIds(found[..k]);
      FoundIdsSize(found[..k]);
      forall e | e in before ensures e in NoFarther(score, ix, q, id) {
        var i :| 0 <= i < k && found[..k][i].id == e;
        assert found[i].id == e && SoundFind(score, ix, q, filters, found[i]) && SoundFind(score, ix, q, filters, found[j]);
      }
      SubsetSize(before, NoFarther(score, ix, q, id));
    }
  }

  /** No matching entity left out is nearer than one returned. */
  ghost predicate NearestFirst(score: Score, ix: Index, q: Vector, filters: Option<Metadata>, found: seq<Found>) {
    forall id, i :: Matches(ix, filters, id) && id !in FoundIds(found) && 0 <= i < |found| ==>
      found[i].distance <= Distance(score, ix, q, id)
  }

  lemma ResultsAreNearest(score: Score, ix: Index, q: Vector, k: nat, filters: Option<Metadata>, hits: seq<Hit>)
    requires Consistent(ix) && IsFlatSearch(score, ix.rows, q, FetchCount(ix, k), hits)
    ensures SoundFinds(score, ix, q, filters, Top(Gathered(ix, hits, filters), k))
    ensures NearestFirst(score, ix, q, filters, Top(Gathered(ix, hits, filters), k))
  {
    GatheredIsSound(score, ix, q, filters, hits);
    var found := Top(Gathered(ix, hits, filters), k);
    TopIsSound(score, ix, q, filters, Gathered(ix, hits, filters), k);
    hide Consistent, IsFlatSearch, Gathered, SoundFinds, Distance, Top;
    forall id, i | Matches(ix, filters, id) && id !in FoundIds(found) && 0 <= i < |found|
      ensures found[i].distance <= Distance(score, ix, q, id)
    {
      LeftOutIsFarther(score, ix, q, k, filters, hits, id, i);
    }
  }

  lemma TopIsSound(score: Score, ix: Index, q: Vector, filters: Option<Metadata>, all: seq<Found>, k: nat)
    requires SoundFinds(score, ix, q, filters, all)
    ensures SoundFinds(score, ix, q, filters, Top(all, k))
  {
  }

  lemma LeftOutIsFarther(
      score: Score, ix: Index, q: Vector, k: nat, filters: Option<Metadata>, hits: seq<Hit>, id: Id, i: nat)
    requires Consistent(ix) && IsFlatSearch(score, ix.rows, q, FetchCount(ix, k), hits)
    requires SoundFinds(score, ix, q, filters, Gathered(ix, hits, filters))
    requires i < |Top(Gathered(ix, hits, filters), k)|
    requires Matches(ix, filters, id) && id !in FoundIds(Top(Gathered(ix, hits, filters), k))
    ensures Top(Gathered(ix, hits, filters), k)[i].distance <= Distance(score, ix, q, id)
  {
    var row := ix.rowOf[id];
    hide IsFlatSearch, Gathered, SoundFinds, Distance, Fetched;
    if Fetched(hits, row) {
      FetchedMatchIsFound(ix, filters, hits, id);
      CutOffIsFarther(score, ix, q, k, filters, Gathered(ix, hits, filters), id, i);
    } else {
      UnfetchedIsFarther(score, ix, q, FetchCount(ix, k), filters, hits, id, i);
    }
  }

  lemma CutOffIsFarther(
      score: Score, ix: Index, q: Vector, k: nat, filters: Option<Metadata>, all: seq<Found>, id: Id, i: nat)
    requires SoundFinds(score, ix, q, filters, all) && i < |Top(all, k)|
    requires id in ix.live && id in FoundIds(all) && id !in FoundIds(Top(all, k))
    ensures Top(all, k)[i].distance <= Distance(score, ix, q, id)
  {
    var j :| 0 <= j < |all| && all[j].id == id;
    assert SoundFind(score, ix, q, filters, all[j]);
    assert forall m :: 0 <= m < |Top(all, k)| ==> Top(all, k)[m].id in FoundIds(Top(all, k));
    assert i < j;
  }

  lemma UnfetchedIsFarther(
      score: Score, ix: Index, q: Vector, n: nat, filters: Option<Metadata>, hits: seq<Hit>, id: Id, i: nat)
    requires Consistent(ix) && IsFlatSearch(score, ix.rows, q, n, hits) && i < |Gathered(ix, hits, filters)|
    requires id in ix.live && !Fetched(hits, ix.rowOf[id])
    ensures Gathered(ix, hits, filters)[i].distance <= Distance(score, ix, q, id)
  {
    var h := Source(ix, hits, filters, i);
    assert score(q, ix.rows[ix.rowOf[id]]) <= hits[h].score;
  }

  // ------------------------------------------------------------------------- how many are returned

  /** Whether every match is sure to be among the rows fetched: something a caller can check. */
  ghost predicate CannotFallShort(ix: Index, k: nat, filters: Option<Metadata>) {
    || k == 0
    || Matching(ix, filters) == {}
    || Matching(ix, filters) == ix.live.Keys
    || k >= |ix.live|
  }

  ghost function Expected(ix: Index, k: nat, filters: Option<Metadata>): nat {
    if k < |Matching(ix, filters)| then k else |Matching(ix, filters)|
  }

  /** Every query of the right dimension, however the index breaks ties, gets all it could. */
  ghost predicate FullForEveryQuery(ix: Index, k: nat, filters: Option<Metadata>) {
    forall q: Vector, hits: seq<Hit> ::
      |q| == ix.config.dimension && IsFlatSearch(InnerProduct, ix.rows, q, FetchCount(ix, k), hits) ==>
        |Top(Gathered(ix, hits, filters), k)| == Expected(ix, k, filters)
  }

  lemma GatheredWithinMatching(score: Score, ix: Index, q: Vector, filters: Option<Metadata>, hits: seq<Hit>)
    requires Consistent(ix) && Scored(score, ix.rows, q, hits) && Ranked(hits)
    ensures |Gathered(ix, hits, filters)| <= |Matching(ix, filters)|
    ensures FoundIds(Gathered(ix, hits, filters)) <= Matching(ix, filters)
    ensures |FoundIds(Gathered(ix, hits, filters))| == |Gathered(ix, hits, filters)|
  {
    var found := Gathered(ix, hits, filters);
    GatheredIsSound(score, ix, q, filters, hits);
    FoundIdsSize(found);
    forall id | id in FoundIds(found) ensures id in Matching(ix, filters) {
      var i :| 0 <= i < |found| && found[i].id == id;
      assert SoundFind(score, ix, q, filters, found[i]);
    }
    SubsetSize(FoundIds(found), Matching(ix, filters));
  }

  lemma SearchIsFull(score: Score, ix: Index, q: Vector, k: nat, filters: Option<Metadata>, hits: seq<Hit>)
    requires Consistent(ix) && IsFlatSearch(score, ix.rows, q, FetchCount(ix, k), hits)
    requires CannotFallShort(ix, k, filters)
    ensures |Top(Gathered(ix, hits, filters), k)| == Expected(ix, k, filters)
  {
    hide Consistent, IsFlatSearch, Gathered, Matching, Fetched, FetchedRows, AuthoritativeRows;
    FlatSearchFacts(score, ix, q, FetchCount(ix, k), hits);
    GatheredWithinMatching(score, ix, q, filters, hits);
    if k > 0 && Matching(ix, filters) != {} {
      if k >= |ix.live| {
        LiveAtMostRows(ix);
        AllFetched(ix, hits);
      }
      OverFetchReachesLive(ix, k, hits);
      if forall row: nat :: row < |ix.rows| ==> Fetched(hits, row) {
        EverythingFound(ix, filters, hits);
        SubsetSize(Matching(ix, filters), FoundIds(Gathered(ix, hits, filters)));
      } else {
        EnoughFound(ix, k, filters, hits);
      }
    }
  }

  lemma FlatSearchFacts(score: Score, ix: Index, q: Vector, n: nat, hits: seq<Hit>)
    requires Consistent(ix) && IsFlatSearch(score, ix.rows, q, n, hits)
    ensures |hits| == n && Scored(score, ix.rows, q, hits) && Ranked(hits) && InRange(ix, hits)
  {
  }

  lemma LiveAtMostRows(ix: Index)
    requires Consistent(ix)
    ensures |ix.live| <= |ix.rows|
  {
    DeadRowsCount(ix);
  }

  lemma EverythingFound(ix: Index, filters: Option<Metadata>, hits: seq<Hit>)
    requires Consistent(ix) && forall row: nat :: row < |ix.rows| ==> Fetched(hits, row)
    ensures Matching(ix, filters) <= FoundIds(Gathered(ix, hits, filters))
  {
    forall id | id in Matching(ix, filters) ensures id in FoundIds(Gathered(ix, hits, filters)) {
      FetchedMatchIsFound(ix, filters, hits, id);
    }
  }

  lemma EnoughFound(ix: Index, k: nat, filters: Option<Metadata>, hits: seq<Hit>)
    requires Consistent(ix) && Matching(ix, filters) == ix.live.Keys
    requires |FetchedRows(hits) * AuthoritativeRows(ix)| >= k
    ensures |FoundIds(Gathered(ix, hits, filters))| >= k
  {
    var near := FetchedRows(hits) * AuthoritativeRows(ix);
    LiveIdsOfRows(ix, near);
    var ids := set row | row in near :: ix.ids[row];
    forall id | id in ids ensures id in FoundIds(Gathered(ix, hits, filters)) {
      var row :| row in near && ix.ids[row] == id;
      assert id in Matching(ix, filters);
      assert Fetched(hits, row);
      FetchedMatchIsFound(ix, filters, hits, id);
    }
    SubsetSize(ids, FoundIds(Gathered(ix, hits, filters)));
  }

  lemma FetchedMatchIsFound(ix: Index, filters: Option<Metadata>, hits: seq<Hit>, id: Id)
    requires Consistent(ix) && Matches(ix, filters, id) && Fetched(hits, ix.rowOf[id])
    ensures id in FoundIds(Gathered(ix, hits, filters))
  {
    var i :| 0 <= i < |hits| && hits[i].row == ix.rowOf[id];
    GatheredIsComplete(ix, filters, hits, i);
  }

  // ------------------------------------------------------ and exactly when a filter can starve a search

  lemma {:induction false} Enumerate(rows: set<nat>) returns (order: seq<nat>)
    ensures |order| == |rows|
    ensures forall row :: row in order <==> row in rows
    ensures AllDistinct(order)
  {
    if rows == {} {
      order := [];
    } else {
      var row :| row in rows;
      var rest := Enumerate(rows - {row});
      assert forall i :: 0 <= i < |rest| ==> rest[i] in rest;
      order := [row] + rest;
    }
  }

  lemma {:induction false} RejectedPrefix(ix: Index, hits: seq<Hit>, filters: Option<Metadata>, m: nat)
    requires forall i :: 0 <= i < |hits| && i < m ==> !Accepted(ix, hits[i].row, filters)
    ensures |Gathered(ix, hits, filters)| <= if |hits| <= m then 0 else |hits| - m
  {
    if hits != [] {
      RejectedPrefix(ix, hits[..|hits| - 1], filters, m);
    }
  }

  ghost function RejectedRows(ix: Index, filters: Option<Metadata>): set<nat> {
    set row | 0 <= row < |ix.rows| && !Accepted(ix, row, filters)
  }

  ghost function AcceptedRows(ix: Index, filters: Option<Metadata>): set<nat> {
    set row | 0 <= row < |ix.rows| && Accepted(ix, row, filters)
  }

  lemma AcceptedRowsCount(ix: Index, filters: Option<Metadata>)
    requires Consistent(ix)
    ensures |AcceptedRows(ix, filters)| == |Matching(ix, filters)|
    ensures |RejectedRows(ix, filters)| == |ix.rows| - |Matching(ix, filters)|
  {
    RowsOfSize(ix, Matching(ix, filters));
    var image := set id | id in Matching(ix, filters) :: ix.rowOf[id];
    forall row | row in AcceptedRows(ix, filters) ensures row in image {
      assert ix.ids[row] in Matching(ix, filters);
    }
    assert AcceptedRows(ix, filters) == image;
    var range := RangeSize(|ix.rows|);
    SplitSize(range, RejectedRows(ix, filters), AcceptedRows(ix, filters));
  }

  lemma MatchingIsSmaller(ix: Index, filters: Option<Metadata>)
    requires Consistent(ix) && Matching(ix, filters) != ix.live.Keys
    ensures |Matching(ix, filters)| < |ix.live|
  {
    var missing := ix.live.Keys - Matching(ix, filters);
    SplitSize(ix.live.Keys, Matching(ix, filters), missing);
    assert missing != {};
  }

  ghost predicate AllDistinct(order: seq<nat>) {
    forall i, j :: 0 <= i < j < |order| ==> order[i] != order[j]
  }

  lemma JoinDistinct(a: seq<nat>, b: seq<nat>)
    requires AllDistinct(a) && AllDistinct(b) && forall x :: x in a ==> x !in b
    ensures AllDistinct(a + b)
  {
    assert forall i :: 0 <= i < |a| ==> a[i] in a;
    assert forall i :: 0 <= i < |b| ==> b[i] in b;
  }

  /** All rows in some order, those the search rejects before those it accepts. */
  lemma WorstOrder(ix: Index, filters: Option<Metadata>) returns (order: seq<nat>)
    requires Consistent(ix)
    ensures |order| == |ix.rows| && AllDistinct(order)
    ensures forall i :: 0 <= i < |order| ==> order[i] < |ix.rows|
    ensures forall i :: 0 <= i < |order| && i < |ix.rows| - |Matching(ix, filters)| ==> !Accepted(ix, order[i], filters)
  {
    AcceptedRowsCount(ix, filters);
    hide Consistent, Matching, Accepted;
    var rejected := Enumerate(RejectedRows(ix, filters));
    var accepted := Enumerate(AcceptedRows(ix, filters));
    JoinDistinct(rejected, accepted);
    order := rejected + accepted;
    hide AllDistinct;
    assert forall i :: 0 <= i < |rejected| ==> rejected[i] in RejectedRows(ix, filters);
    assert forall i :: 0 <= i < |accepted| ==> accepted[i] in AcceptedRows(ix, filters);
  }

  /** The score of an `IndexFlatIP`. */
  function InnerProduct(a: Vector, b: Vector): real {
    if a == [] || b == [] then 0.0 else a[0] * b[0] + InnerProduct(a[1..], b[1..])
  }

  /** It is the sum over the coordinates of the products. */
  lemma {:induction false} InnerProductAppends(a: Vector, b: Vector, x: real, y: real)
    requires |a| == |b|
    ensures InnerProduct([], []) == 0.0
    ensures InnerProduct(a + [x], b + [y]) == InnerProduct(a, b) + x * y
  {
    NothingToMultiply();
    hide InnerProduct;
    InnerProductFirst(a + [x], b + [y]);
    if a == [] {
      assert (a + [x])[1..] == [] && (b + [y])[1..] == [] && b == [];
    } else {
      InnerProductFirst(a, b);
      InnerProductAppends(a[1..], b[1..], x, y);
      assert (a + [x])[1..] == a[1..] + [x] && (b + [y])[1..] == b[1..] + [y];
    }
  }

  lemma NothingToMultiply()
    ensures InnerProduct([], []) == 0.0
  {
  }

  lemma InnerProductFirst(a: Vector, b: Vector)
    requires a != [] && b != []
    ensures InnerProduct(a, b) == a[0] * b[0] + InnerProduct(a[1..], b[1..])
  {
  }

  function Zeros(n: nat): Vector {
    seq(n, _ => 0.0)
  }

  /** A zero query scores every row alike. */
  lemma {:induction false} ZeroQueryScoresZero(n: nat, b: Vector)
    ensures InnerProduct(Zeros(n), b) == 0.0
  {
    if n > 0 && b != [] {
      assert Zeros(n)[1..] == Zeros(n - 1);
      ZeroQueryScoresZero(n - 1, b[1..]);
    }
  }

  /** Any distinct rows are then a flat index's best. */
  lemma AnyOrderIsFlat(rows: seq<Vector>, dimension: nat, order: seq<nat>, n: nat) returns (hits: seq<Hit>)
    requires n <= |order| && AllDistinct(order) && forall i :: 0 <= i < |order| ==> order[i] < |rows|
    ensures IsFlatSearch(InnerProduct, rows, Zeros(dimension), n, hits)
    ensures |hits| == n && forall i :: 0 <= i < n ==> hits[i].row == order[i]
  {
    hits := seq(n, i requires 0 <= i < |order| => Hit(0.0, order[i]));
    forall row: nat | row < |rows| ensures InnerProduct(Zeros(dimension), rows[row]) == 0.0 {
      ZeroQueryScoresZero(dimension, rows[row]);
    }
  }

  /** So on a zero query of the index's own dimension a flat index may put every match last. */
  lemma FilterStarves(ix: Index, k: nat, filters: Option<Metadata>) returns (hits: seq<Hit>)
    requires Consistent(ix) && !CannotFallShort(ix, k, filters)
    ensures |Zeros(ix.config.dimension)| == ix.config.dimension
    ensures IsFlatSearch(InnerProduct, ix.rows, Zeros(ix.config.dimension), FetchCount(ix, k), hits)
    ensures |Top(Gathered(ix, hits, filters), k)| < Expected(ix, k, filters)
  {
    hide Consistent, Matching, Accepted, Gathered, IsFlatSearch, AllDistinct, InnerProduct;
    LiveAtMostRows(ix);
    MatchingIsSmaller(ix, filters);
    hits := WorstAnswer(ix, filters, FetchCount(ix, k));
    RejectedPrefix(ix, hits, filters, |ix.rows| - |Matching(ix, filters)|);
  }

  /** The answer to a zero query that lists the rejected rows first. */
  lemma WorstAnswer(ix: Index, filters: Option<Metadata>, n: nat) returns (hits: seq<Hit>)
    requires Consistent(ix) && n <= |ix.rows|
    ensures IsFlatSearch(InnerProduct, ix.rows, Zeros(ix.config.dimension), n, hits) && |hits| == n
    ensures forall i :: 0 <= i < |hits| && i < |ix.rows| - |Matching(ix, filters)| ==> !Accepted(ix, hits[i].row, filters)
  {
    hide Consistent, Matching, Accepted, IsFlatSearch, AllDistinct, InnerProduct;
    var order := WorstOrder(ix, filters);
    hits := AnyOrderIsFlat(ix.rows, ix.config.dimension, order, n);
  }

  /**
    A search returns all it could for every query and every way of breaking ties if and only if the
    filter lets every live entity through, or none, or `k` reaches every live entity.  The over-fetch
    counts dead rows only, so a filter's own rejections use up the places of its matches.
    */
  lemma FullExactlyWhen(ix: Index, k: nat, filters: Option<Metadata>)
    requires Consistent(ix)
    ensures FullForEveryQuery(ix, k, filters) <==> CannotFallShort(ix, k, filters)
  {
    hide Consistent, CannotFallShort, IsFlatSearch, Gathered, Expected, Top, FetchCount, InnerProduct, Zeros;
    if CannotFallShort(ix, k, filters) {
      forall q: Vector, hits: seq<Hit> |
        |q| == ix.config.dimension && IsFlatSearch(InnerProduct, ix.rows, q, FetchCount(ix, k), hits)
        ensures |Top(Gathered(ix, hits, filters), k)| == Expected(ix, k, filters)
      {
        SearchIsFull(InnerProduct, ix, q, k, filters, hits);
      }
    } else {
      var hits := FilterStarves(ix, k, filters);
    }
  }
}
