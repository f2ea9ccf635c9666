/**
  The tombstoned vector index: each method changes the physical rows and maps step by step, and is
  specified by what happens to the plain map the index stands for.
  */
module VectorIndex {
  import opened Common
  import opened VectorCatalogue

  datatype IndexError = Duplicate(id: Id) | WrongDimension(id: Id) | Unsupported | Corrupt

  // ------------------------------------------------------------------------------ specifications

  /** Why an embedding may not be inserted, in the order the program asks. */
  function Refusal(entries: map<Id, Embedding>, dimension: nat, e: Embedding): Option<IndexError> {
    if e.id in entries then Some(Duplicate(e.id))
    else if |e.vector| != dimension then Some(WrongDimension(e.id))
    else None
  }

  function Inserted(entries: map<Id, Embedding>, batch: seq<Embedding>): map<Id, Embedding> {
    if batch == [] then entries
    else Inserted(entries, batch[..|batch| - 1])[batch[|batch| - 1].id := batch[|batch| - 1]]
  }

  lemma InsertedNone(entries: map<Id, Embedding>, batch: seq<Embedding>)
    ensures Inserted(entries, batch[..0]) == entries
  {
  }

  lemma InsertedOne(entries: map<Id, Embedding>, batch: seq<Embedding>, n: nat)
    requires n < |batch|
    ensures Inserted(entries, batch[..n + 1]) == Inserted(entries, batch[..n])[batch[n].id := batch[n]]
  {
    assert batch[..n + 1][..n] == batch[..n];
  }

  /** What `delete` leaves: an entry goes when it is named and passes the filter. */
  function Deleted(entries: map<Id, Embedding>, names: seq<Id>, filters: Option<Metadata>): map<Id, Embedding> {
    map id | id in entries && !(id in names && Passes(entries[id].metadata, filters)) :: entries[id]
  }

  // --------------------------------------------------------------------------------- persistence

  // The FAISS file and the sidecar beside it.
  datatype FaissFile = FaissFile(dimension: nat, rows: seq<Vector>) {
    predicate WellFormed() {
      forall row :: 0 <= row < |rows| ==> |rows[row]| == dimension
    }
  }

  datatype Sidecar = Sidecar(config: Config, ids: seq<Id>, tombstoned: set<Id>, meta: map<Id, Metadata>)

  function SavedFile(ix: Index): FaissFile {
    FaissFile(ix.config.dimension, ix.rows)
  }

  function SavedSidecar(ix: Index): Sidecar {
    Sidecar(ix.config, ix.ids, ix.tombstoned, ix.meta)
  }

  /** `_validate_persisted_index`. */
  predicate Validates(file: FaissFile, side: Sidecar) {
    && |file.rows| == |side.ids|
    && file.dimension == side.config.dimension
    && side.meta.Keys == (set id | id in side.ids) - side.tombstoned
  }

  /** The last row of every id that is not tombstoned, among the first rows of `ids`. */
  function RowMap(ids: seq<Id>, tombstoned: set<Id>): map<Id, nat> {
    if ids == [] then map[]
    else
      var n := |ids| - 1;
      if ids[n] in tombstoned then RowMap(ids[..n], tombstoned) else RowMap(ids[..n], tombstoned)[ids[n] := n]
  }

  lemma {:induction false} RowMapIsLast(ids: seq<Id>, tombstoned: set<Id>)
    ensures RowMap(ids, tombstoned).Keys == (set id | id in ids) - tombstoned
    ensures forall id :: id in RowMap(ids, tombstoned) ==> LastRow(ids, id, RowMap(ids, tombstoned)[id])
  {
    if ids != [] {
      var n := |ids| - 1;
      RowMapIsLast(ids[..n], tombstoned);
      assert ids == ids[..n] + [ids[n]];
    }
  }

  function Restored(file: FaissFile, side: Sidecar): Index
    requires Validates(file, side)
  {
    RowMapIsLast(side.ids, side.tombstoned);
    var rowOf := RowMap(side.ids, side.tombstoned);
    Index(side.config, file.rows, side.ids, map id | id in rowOf :: file.rows[rowOf[id]], rowOf, side.meta, side.tombstoned)
  }

  /** Whatever passes validation is restored to a consistent index. */
  lemma RestoredIsConsistent(file: FaissFile, side: Sidecar)
    requires Validates(file, side) && file.WellFormed()
    ensures Consistent(Restored(file, side))
  {
    RowMapIsLast(side.ids, side.tombstoned);
    forall row | 0 <= row < |side.ids|
      ensures side.ids[row] in Restored(file, side).live || side.ids[row] in side.tombstoned
    {
      assert side.ids[row] in set id | id in side.ids;
    }
  }

  /** Save then load: validation passes and every field comes back, `live` and `rowOf` recomputed. */
  lemma SaveThenLoad(ix: Index)
    requires Consistent(ix)
    ensures SavedFile(ix).WellFormed() && Validates(SavedFile(ix), SavedSidecar(ix))
    ensures Restored(SavedFile(ix), SavedSidecar(ix)) == ix
  {
    var present := set id | id in ix.ids;
    RowMapIsLast(ix.ids, ix.tombstoned);
    forall id | id in ix.live ensures id in present {
      assert ix.ids[ix.rowOf[id]] == id;
    }
    assert present - ix.tombstoned == ix.live.Keys;
    forall id | id in ix.rowOf ensures RowMap(ix.ids, ix.tombstoned)[id] == ix.rowOf[id] {
      OneLastRow(ix.ids, id, RowMap(ix.ids, ix.tombstoned)[id], ix.rowOf[id]);
    }
    assert RowMap(ix.ids, ix.tombstoned) == ix.rowOf;
  }

  /** So the files that validate are exactly those some consistent index saves. */
  lemma ValidatesExactlyWhen(file: FaissFile, side: Sidecar)
    requires file.WellFormed()
    ensures Validates(file, side) <==> exists ix :: Consistent(ix) && SavedFile(ix) == file && SavedSidecar(ix) == side
  {
    hide Consistent;
    if Validates(file, side) {
      RestoredIsConsistent(file, side);
      var ix := Restored(file, side);
      assert SavedFile(ix) == file && SavedSidecar(ix) == side;
    }
    forall ix | Consistent(ix) && SavedFile(ix) == file && SavedSidecar(ix) == side ensures Validates(file, side) {
      SaveThenLoad(ix);
    }
  }

  lemma OneLastRow(ids: seq<Id>, id: Id, a: nat, b: nat)
    requires LastRow(ids, id, a) && LastRow(ids, id, b)
    ensures a == b
  {
  }

  // -------------------------------------------------------------------------------------- the index

  class FaissVectorIndex {
    const score: Score
    const defaults: Config
    var config: Config
    var rows: seq<Vector>
    var ids: seq<Id>
    var live: map<Id, Vector>
    var rowOf: map<Id, nat>
    var meta: map<Id, Metadata>
    var tombstoned: set<Id>

    function State(): Index
      reads this
    {
      Index(config, rows, ids, live, rowOf, meta, tombstoned)
    }

    ghost predicate Valid()
      reads this
    {
      Consistent(State()) && Honoured(config, defaults)
    }

    ghost function Catalogue(): map<Id, Embedding>
      requires Valid()
      reads this
    {
      Entries(State())
    }

    constructor (score: Score, defaults: Config, config: Config)
      requires Honoured(config, defaults)
      ensures Valid() && Catalogue() == map[] && this.score == score && this.defaults == defaults
      ensures State() == Index(config, [], [], map[], map[], map[], {})
    {
      this.score, this.defaults, this.config := score, defaults, config;
      rows, ids, live, rowOf, meta, tombstoned := [], [], map[], map[], map[], {};
    }

    // ------------------------------------------------------------------------------- mutation

    method AddOne(e: Embedding) returns (refused: Option<IndexError>)
      requires Valid()
      modifies this
      ensures Valid() && config == old(config)
      ensures refused == old(Refusal(Catalogue(), config.dimension, e))
      ensures refused == Some(Duplicate(e.id)) <==> e.id in old(live)
      ensures refused == Some(WrongDimension(e.id)) <==> e.id !in old(live) && |e.vector| != config.dimension
      ensures refused.None? <==> e.id !in old(live) && |e.vector| == config.dimension
      ensures refused.Some? ==> State() == old(State())
      ensures refused.None? ==>
                && Catalogue() == old(Catalogue())[e.id := e]
                && rows == old(rows) + [e.vector] && ids == old(ids) + [e.id]
                && tombstoned == old(tombstoned) - {e.id}
    {
      hide Consistent;
      if e.id in live {
        return Some(Duplicate(e.id));
      }
      if |e.vector| != config.dimension {
        return Some(WrongDimension(e.id));
      }
      rows := rows + [e.vector];
      ids := ids + [e.id];
      rowOf := rowOf[e.id := |ids| - 1];
      live := live[e.id := e.vector];
      meta := meta[e.id := e.metadata];
      tombstoned := tombstoned - {e.id};
      AppendKeepsConsistent(old(State()), State(), e);
      assert Catalogue() == old(Catalogue())[e.id := e];
      return None;
    }

    /** A batch stops at its first refused embedding; the ones before it stay inserted. */
    method Insert(batch: seq<Embedding>) returns (refused: Option<IndexError>, n: nat)
      requires Valid()
      modifies this
      ensures Valid() && config == old(config) && n <= |batch|
      ensures Catalogue() == Inserted(old(Catalogue()), batch[..n])
      ensures forall i :: 0 <= i < n ==> Refusal(Inserted(old(Catalogue()), batch[..i]), config.dimension, batch[i]).None?
      ensures refused.None? <==> n == |batch|
      ensures n < |batch| ==> refused == Refusal(Catalogue(), config.dimension, batch[n])
    {
      hide Consistent, Entries, Inserted, Refusal, Honoured;
      InsertedNone(Catalogue(), batch);
      n := 0;
      while n < |batch|
        invariant Valid() && config == old(config) && n <= |batch|
        invariant Catalogue() == Inserted(old(Catalogue()), batch[..n])
        invariant forall i :: 0 <= i < n ==>
                    Refusal(Inserted(old(Catalogue()), batch[..i]), config.dimension, batch[i]).None?
      {
        refused := AddOne(batch[n]);
        if refused.Some? {
          return;
        }
        InsertedOne(old(Catalogue()), batch, n);
        n := n + 1;
      }
      refused := None;
      assert batch[..n] == batch;
    }

    method Delete(names: seq<Id>, filters: Option<Metadata>)
      requires Valid()
      modifies this
      ensures Valid() && config == old(config) && rows == old(rows) && ids == old(ids)
      ensures Catalogue() == Deleted(old(Catalogue()), names, filters)
      ensures forall id :: id in live <==>
                && id in old(live)
                && (id !in names ||
                    (filters.Some? &&
                     exists key :: key in filters.value &&
                       (if key in old(meta)[id] then old(meta)[id][key] else Null) != filters.value[key]))
      ensures forall id :: id in live ==> id in meta && live[id] == old(live)[id] && meta[id] == old(meta)[id]
      ensures tombstoned == old(tombstoned) + (old(live.Keys) - live.Keys)
    {
      hide Consistent, Entries, Deleted;
      DeletedNone(Catalogue(), filters);
      for i := 0 to |names|
        invariant Valid() && config == old(config) && rows == old(rows) && ids == old(ids)
        invariant Catalogue() == Deleted(old(Catalogue()), names[..i], filters)
        invariant live.Keys <= old(live.Keys)
        invariant tombstoned == old(tombstoned) + (old(live.Keys) - live.Keys)
      {
        DeleteOne(names[i], filters);
        DeletedOneMore(old(Catalogue()), names, i, filters);
      }
      assert names[..|names|] == names;
      DeletedKeyByKey(old(State()), State(), names, filters);
    }

    method DeleteOne(id: Id, filters: Option<Metadata>)
      requires Valid()
      modifies this
      ensures Valid() && config == old(config) && rows == old(rows) && ids == old(ids)
      ensures Catalogue() == Deleted(old(Catalogue()), [id], filters)
      ensures live.Keys <= old(live.Keys) && tombstoned == old(tombstoned) + (old(live.Keys) - live.Keys)
    {
      KeysAgree(State());
      hide Consistent, Entries, Deleted, Passes;
      if id in live && Passes(meta[id], filters) {
        live := live - {id};
        meta := meta - {id};
        rowOf := rowOf - {id};
        tombstoned := tombstoned + {id};
        BuryKeepsConsistent(old(State()), State(), id);
      }
      BuryDeletes(old(State()), State(), id, filters);
    }

    /** Compaction; a refused configuration changes nothing. */
    method Rebuild(wanted: Option<Config>) returns (refused: Option<IndexError>)
      requires Valid()
      modifies this
      ensures Valid()
      ensures refused == if wanted.Some? && !Honoured(wanted.value, defaults) then Some(Unsupported) else None
      ensures refused.Some? ==> State() == old(State())
      ensures refused.None? ==>
                && Catalogue() == old(Catalogue())
                && |rows| == |live| && tombstoned == {}
                && config == if wanted.Some? then wanted.value.(dimension := old(config.dimension)) else old(config)
      ensures refused.None? <==>
                || wanted.None?
                || (wanted.value.metric == "cosine" && wanted.value.m == defaults.m
                    && wanted.value.efConstruction == defaults.efConstruction && wanted.value.efSearch == defaults.efSearch)
    {
      hide Consistent, Entries;
      if wanted.Some? {
        if !Honoured(wanted.value, defaults) {
          return Some(Unsupported);
        }
        config := wanted.value.(dimension := config.dimension);
      }
      ghost var before := State();
      var survivors := Survivors();
      ReindexSurvivors(survivors);
      tombstoned := {};
      CompactedIsConsistent(before, State(), survivors);
      return None;
    }

    /** The live ids in some order. */
    method Survivors() returns (order: seq<Id>)
      ensures forall id :: id in order <==> id in live
      ensures forall i, j :: 0 <= i < j < |order| ==> order[i] != order[j]
      ensures |order| == |live|
    {
      order := [];
      var todo := live.Keys;
      assert |live.Keys| == |live|;
      while todo != {}
        invariant todo <= live.Keys && forall id :: id in order <==> id in live && id !in todo
        invariant forall i, j :: 0 <= i < j < |order| ==> order[i] != order[j]
        invariant |order| + |todo| == |live|
      {
        var id :| id in todo;
        assert forall i :: 0 <= i < |order| ==> order[i] in order;
        order := order + [id];
        todo := todo - {id};
      }
    }

    method ReindexSurvivors(survivors: seq<Id>)
      requires forall i :: 0 <= i < |survivors| ==> survivors[i] in live
      requires forall i, j :: 0 <= i < j < |survivors| ==> survivors[i] != survivors[j]
      modifies this`rows, this`ids, this`rowOf
      ensures ids == survivors && |rows| == |ids|
      ensures forall row :: 0 <= row < |ids| ==> rows[row] == live[ids[row]]
      ensures rowOf.Keys == set id | id in survivors
      ensures forall row :: 0 <= row < |ids| ==> ids[row] in rowOf && rowOf[ids[row]] == row
    {
      ids := survivors;
      rows := [];
      rowOf := map[];
      for row := 0 to |survivors|
        invariant ids == survivors && |rows| == row
        invariant forall r :: 0 <= r < row ==> rows[r] == live[ids[r]]
        invariant rowOf.Keys == set id | id in survivors[..row]
        invariant forall r :: 0 <= r < row ==> ids[r] in rowOf && rowOf[ids[r]] == r
      {
        rows := rows + [live[survivors[row]]];
        assert survivors[..row + 1] == survivors[..row] + [survivors[row]];
        rowOf := rowOf[survivors[row] := row];
      }
      assert survivors[..|survivors|] == survivors;
    }

    // --------------------------------------------------------------------------------- queries

    /** `get_stats`: the dead count is every row that speaks for nobody, deleted or superseded. */
    method Stats(filters: Option<Metadata>) returns (count: nat, dead: nat, percentage: real)
      requires Valid()
      ensures count ==
              |set id | id in meta &&
                (filters == None ||
                 forall key :: key in filters.value ==> (if key in meta[id] then meta[id][key] else Null) == filters.value[key])|
      ensures dead == if Unfiltered(filters) then |DeadRows(State())| else 0
      ensures dead == if filters == None || filters.value == map[] then |rows| - |live| else 0
      ensures percentage == if count + dead == 0 then 0.0 else dead as real / (count + dead) as real * 100.0
    {
      KeysAgree(State());
      hide Consistent;
      count := CountPassing(filters);
      DeadRowsCount(State());
      hide DeadRows, Matching, Consistent;
      MatchingKeyByKey(State(), filters);
      if Unfiltered(filters) {
        AllMatch(filters);
      }
      dead := if Unfiltered(filters) then |rows| - count else 0;
      percentage := if count + dead == 0 then 0.0 else dead as real / (count + dead) as real * 100.0;
    }

    lemma AllMatch(filters: Option<Metadata>)
      requires Valid() && Unfiltered(filters)
      ensures |Matching(State(), filters)| == |live|
    {
      assert Matching(State(), filters) == live.Keys;
      assert |live.Keys| == |live|;
    }

    method CountPassing(filters: Option<Metadata>) returns (count: nat)
      requires Valid()
      ensures count == |Matching(State(), filters)|
    {
      hide Consistent, Passes, Matches;
      KeysAgree(State());
      count := 0;
      var todo := meta.Keys;
      ghost var counted: set<Id> := {};
      while todo != {}
        invariant todo <= meta.Keys && count == |counted|
        invariant counted == Matching(State(), filters) - todo
      {
        var id :| id in todo;
        MatchingLess(State(), filters, todo, id);
        if Passes(meta[id], filters) {
          count := count + 1;
          counted := counted + {id};
        }
        todo := todo - {id};
      }
    }

    /**
      `search`, with `flat(n)` the flat index's answer for its best `n` rows.  The results are
      distinct matching entities at their true distances, nearest first, and nearer than any match
      left out.  There are as many as asked for, or as exist, whenever the filter cannot starve the
      search, and a match with fewer than `k` live entities as near is never missed.
      */
    method Search(q: Vector, k: int, filters: Option<Metadata>, efSearch: Option<nat>, flat: nat -> seq<Hit>)
      returns (r: Result<seq<Found>, IndexError>)
      requires Valid()
      requires forall n: nat :: n <= |rows| ==> IsFlatSearch(score, rows, q, n, flat(n))
      ensures r.Err? <==> efSearch.Some?
      ensures r.Err? ==> r.error == Unsupported
      ensures r.Ok? && k <= 0 ==> r.value == []
      ensures r.Ok? && k > 0 ==> Answers(q, k, filters, r.value)
      ensures r.Ok? ==> forall i :: 0 <= i < |r.value| ==>
                && r.value[i].id in live && r.value[i].id in meta
                && r.value[i].distance == 1.0 - score(q, live[r.value[i].id])
      ensures r.Ok? && filters.Some? ==> forall i, key :: 0 <= i < |r.value| && key in filters.value ==>
                (if key in meta[r.value[i].id] then meta[r.value[i].id][key] else Null) == filters.value[key]
      ensures r.Ok? && k > 0 ==> |r.value| <= k
      ensures r.Ok? && k > 0 && filters == None ==> |r.value| == if k < |live| then k else |live|
      ensures r.Ok? ==> forall i, j :: 0 <= i < j < |r.value| ==>
                r.value[i].id != r.value[j].id && r.value[i].distance <= r.value[j].distance
    {
      hide Consistent, Answers, IsFlatSearch, Gathered, Passes;
      if efSearch.Some? {
        return Err(Unsupported);
      }
      if |rows| == 0 || k <= 0 {
        NothingToFind(q, k, filters);
        if k > 0 {
          AnswersKeyByKey(q, k, filters, []);
        }
        return Ok([]);
      }
      DeadRowsCount(State());
      var deadRows := |rows| - |live|;
      var fetch := if k + deadRows < |rows| then k + deadRows else |rows|;
      AnswerInRange(q, fetch, flat(fetch));
      var found := Collect(flat(fetch), k, filters);
      ResultsAnswer(q, k, filters, flat(fetch));
      AnswersKeyByKey(q, k, filters, found);
      return Ok(found);
    }

    lemma AnswerInRange(q: Vector, n: nat, hits: seq<Hit>)
      requires Valid() && IsFlatSearch(score, rows, q, n, hits)
      ensures forall i :: 0 <= i < |hits| ==> hits[i].row < |rows|
    {
    }

    ghost predicate Answers(q: Vector, k: nat, filters: Option<Metadata>, found: seq<Found>)
      requires Valid()
      reads this
    {
      && |found| <= k
      && SoundFinds(score, State(), q, filters, found)
      && NearestFirst(score, State(), q, filters, found)
      && (CannotFallShort(State(), k, filters) ==> |found| == Expected(State(), k, filters))
      && (Unfiltered(filters) ==> |found| == if k < |live| then k else |live|)
      && (forall id :: Matches(State(), filters, id) && |NoFarther(score, State(), q, id)| < k ==> id in FoundIds(found))
    }

    /** An answer in terms of the index's own maps. */
    lemma AnswersKeyByKey(q: Vector, k: nat, filters: Option<Metadata>, found: seq<Found>)
      requires Valid() && Answers(q, k, filters, found)
      ensures |found| <= k && (filters == None ==> |found| == if k < |live| then k else |live|)
      ensures forall i :: 0 <= i < |found| ==>
                found[i].id in live && found[i].id in meta && found[i].distance == 1.0 - score(q, live[found[i].id])
      ensures filters.Some? ==> forall i, key :: 0 <= i < |found| && key in filters.value ==>
                (if key in meta[found[i].id] then meta[found[i].id][key] else Null) == filters.value[key]
      ensures forall i, j :: 0 <= i < j < |found| ==> found[i].id != found[j].id && found[i].distance <= found[j].distance
    {
      hide Consistent, NearestFirst, CannotFallShort, Expected, NoFarther, FoundIds;
      forall i | 0 <= i < |found|
        ensures found[i].id in live && found[i].id in meta && Passes(meta[found[i].id], filters)
        ensures found[i].distance == 1.0 - score(q, live[found[i].id])
      {
        assert SoundFind(score, State(), q, filters, found[i]);
      }
    }

    /** `_collect`. */
    method Collect(hits: seq<Hit>, k: nat, filters: Option<Metadata>) returns (results: seq<Found>)
      requires Valid() && k > 0 && forall i :: 0 <= i < |hits| ==> hits[i].row < |rows|
      ensures results == Top(Gathered(State(), hits, filters), k)
    {
      hide Consistent, Honoured, Passes, Gathered, Accepted;
      KeysAgree(State());
      GatheredNone(State(), hits, filters);
      results := [];
      for i := 0 to |hits|
        invariant results == Gathered(State(), hits[..i], filters) && |results| < k
      {
        GatheredNext(State(), hits, filters, i);
        var row := hits[i].row;
        var id := ids[row];
        AcceptedHere(row, filters);
        if id in rowOf && rowOf[id] == row && Passes(meta[id], filters) {
          results := results + [Found(id, 1.0 - hits[i].score)];
        }
        if |results| >= k {
          GatheredPrefix(State(), hits, filters, i + 1);
          return;
        }
      }
      assert hits[..|hits|] == hits;
    }

    lemma AcceptedHere(row: nat, filters: Option<Metadata>)
      requires Valid() && row < |rows|
      ensures row < |ids| && (ids[row] in rowOf ==> ids[row] in meta)
      ensures Accepted(State(), row, filters) <==>
                ids[row] in rowOf && rowOf[ids[row]] == row && Passes(meta[ids[row]], filters)
    {
    }

    lemma ResultsAnswer(q: Vector, k: nat, filters: Option<Metadata>, hits: seq<Hit>)
      requires Valid() && IsFlatSearch(score, rows, q, FetchCount(State(), k), hits)
      ensures Answers(q, k, filters, Top(Gathered(State(), hits, filters), k))
    {
      var found := Top(Gathered(State(), hits, filters), k);
      ResultsAreNearest(score, State(), q, k, filters, hits);
      UnfilteredExpectation(k, filters);
      hide Consistent, IsFlatSearch, SoundFinds, NearestFirst, CannotFallShort, Expected, Gathered, Matches,
            NoFarther, FoundIds;
      if CannotFallShort(State(), k, filters) {
        SearchIsFull(score, State(), q, k, filters, hits);
      }
      forall id | Matches(State(), filters, id) && |NoFarther(score, State(), q, id)| < k ensures id in FoundIds(found) {
        NearMatchIsFound(score, State(), q, k, filters, hits, id);
      }
    }

    lemma UnfilteredExpectation(k: nat, filters: Option<Metadata>)
      requires Valid()
      ensures Unfiltered(filters) ==>
                && CannotFallShort(State(), k, filters)
                && Expected(State(), k, filters) == if k < |live| then k else |live|
    {
      if Unfiltered(filters) {
        assert Matching(State(), filters) == live.Keys;
        assert |live.Keys| == |live|;
      }
    }

    lemma NothingToFind(q: Vector, k: int, filters: Option<Metadata>)
      requires Valid()
      ensures |rows| == 0 && k > 0 ==> Answers(q, k, filters, [])
    {
      if |rows| == 0 && k > 0 {
        DeadRowsCount(State());
        assert live.Keys == {} by {
          assert |live.Keys| == |live|;
        }
        assert Matching(State(), filters) == {};
      }
    }

    // ----------------------------------------------------------------------------- persistence

    /** What `save` writes. */
    function Sidecar(): Sidecar
      reads this
    {
      SavedSidecar(State())
    }

    /** `_restore` with `_reconstruct_live_rows`, onto a freshly built index. */
    method Restore(file: FaissFile, side: Sidecar)
      requires Valid() && Validates(file, side) && file.WellFormed() && config == side.config
      modifies this
      ensures Valid() && State() == Restored(file, side)
    {
      rows, ids, tombstoned, meta := file.rows, side.ids, side.tombstoned, side.meta;
      live, rowOf := map[], map[];
      for row := 0 to |ids|
        invariant rows == file.rows && ids == side.ids && tombstoned == side.tombstoned && meta == side.meta
        invariant config == side.config
        invariant rowOf == RowMap(ids[..row], tombstoned)
        invariant live.Keys == rowOf.Keys && forall id :: id in rowOf ==> rowOf[id] < row && live[id] == rows[rowOf[id]]
      {
        assert ids[..row + 1][..row] == ids[..row];
        if ids[row] !in tombstoned {
          live := live[ids[row] := rows[row]];
          rowOf := rowOf[ids[row] := row];
        }
      }
      assert ids[..|ids|] == ids;
      assert live == Restored(file, side).live;
      RestoredIsConsistent(file, side);
    }
  }

  /** `_restore_persisted`: validate, build an index of the saved configuration, restore into it. */
  method Load(score: Score, defaults: Config, file: FaissFile, side: Sidecar)
    returns (r: Result<FaissVectorIndex, IndexError>)
    requires file.WellFormed()
    ensures r.Ok? <==> Validates(file, side) && Honoured(side.config, defaults)
    ensures r.Ok? ==> fresh(r.value) && r.value.Valid() && r.value.State() == Restored(file, side)
    ensures r.Err? ==> r.error == if Validates(file, side) then Unsupported else Corrupt
    ensures r.Ok? ==>
              && side.config.metric == "cosine" && side.config.m == defaults.m
              && side.config.efConstruction == defaults.efConstruction && side.config.efSearch == defaults.efSearch
  {
    if !Validates(file, side) {
      return Err(Corrupt);
    }
    if !Honoured(side.config, defaults) {
      return Err(Unsupported);
    }
    var index := new FaissVectorIndex(score, defaults, side.config);
    index.Restore(file, side);
    return Ok(index);
  }

  // ------------------------------------------------------------------------------- frame lemmas

  lemma AppendKeepsConsistent(a: Index, b: Index, e: Embedding)
    requires Consistent(a) && e.id !in a.live && |e.vector| == a.config.dimension
    requires b == Index(a.config, a.rows + [e.vector], a.ids + [e.id], a.live[e.id := e.vector],
                        a.rowOf[e.id := |a.ids|], a.meta[e.id := e.metadata], a.tombstoned - {e.id})
    ensures Consistent(b)
  {
    AppendNames(a, b, e);
    hide RowsNamed;
  }

  lemma AppendNames(a: Index, b: Index, e: Embedding)
    requires RowsNamed(a) && e.id !in a.live
    requires b.rows == a.rows + [e.vector] && b.ids == a.ids + [e.id] && b.live == a.live[e.id := e.vector]
    requires b.rowOf == a.rowOf[e.id := |a.ids|]
    ensures RowsNamed(b)
  {
    forall id | id in b.rowOf ensures LastRow(b.ids, id, b.rowOf[id]) && b.rows[b.rowOf[id]] == b.live[id] {
      if id != e.id {
        assert LastRow(a.ids, id, a.rowOf[id]);
      }
    }
  }

  /** Of the ids not yet looked at, one more looked at. */
  lemma MatchingLess(ix: Index, filters: Option<Metadata>, todo: set<Id>, id: Id)
    requires id in todo && ix.live.Keys == ix.meta.Keys && todo <= ix.meta.Keys
    ensures Matching(ix, filters) - (todo - {id}) ==
            if Passes(ix.meta[id], filters) then Matching(ix, filters) - todo + {id} else Matching(ix, filters) - todo
  {
    hide Passes;
  }

  lemma KeysAgree(ix: Index)
    requires Consistent(ix)
    ensures |ix.rows| == |ix.ids| && ix.live.Keys == ix.rowOf.Keys == ix.meta.Keys
  {
  }

  function Buried(a: Index, id: Id): Index {
    a.(live := a.live - {id}, rowOf := a.rowOf - {id}, meta := a.meta - {id}, tombstoned := a.tombstoned + {id})
  }

  lemma BuryKeepsConsistent(a: Index, b: Index, id: Id)
    requires Consistent(a) && id in a.live
    requires b == Buried(a, id)
    ensures Consistent(b)
  {
  }

  lemma DeletedSingle(entries: map<Id, Embedding>, id: Id, filters: Option<Metadata>)
    ensures Deleted(entries, [id], filters) ==
            if id in entries && Passes(entries[id].metadata, filters) then entries - {id} else entries
  {
    hide Passes;
  }

  lemma BuryDeletes(a: Index, b: Index, id: Id, filters: Option<Metadata>)
    requires Consistent(a) && Consistent(b)
    requires id in a.live ==> id in a.meta
    requires if id in a.live && Passes(a.meta[id], filters) then b == Buried(a, id) else b == a
    ensures Entries(b) == Deleted(Entries(a), [id], filters)
    ensures b.live.Keys <= a.live.Keys && b.tombstoned == a.tombstoned + (a.live.Keys - b.live.Keys)
  {
    DeletedSingle(Entries(a), id, filters);
    assert id in Entries(a) <==> id in a.live;
    if id in a.live {
      assert Entries(a)[id].metadata == a.meta[id];
    }
    hide Consistent, Passes, Deleted, Entries, Buried;
    if id in a.live && Passes(a.meta[id], filters) {
      BuriedEntries(a, id);
    } else {
      assert a.live.Keys - b.live.Keys == {};
    }
  }

  lemma BuriedEntries(a: Index, id: Id)
    requires Consistent(a) && Consistent(Buried(a, id)) && id in a.live
    ensures Entries(Buried(a, id)) == Entries(a) - {id}
    ensures Buried(a, id).live.Keys <= a.live.Keys
    ensures Buried(a, id).tombstoned == a.tombstoned + (a.live.Keys - Buried(a, id).live.Keys)
  {
    hide RowsNamed, Covered;
    assert Buried(a, id).live.Keys == a.live.Keys - {id};
  }

  /** The entries after a deletion, in terms of the index's own maps. */
  lemma DeletedKeyByKey(a: Index, b: Index, names: seq<Id>, filters: Option<Metadata>)
    requires Consistent(a) && Consistent(b) && Entries(b) == Deleted(Entries(a), names, filters)
    ensures forall id :: id in b.live <==>
              && id in a.live
              && (id !in names ||
                  (filters.Some? &&
                   exists key :: key in filters.value &&
                     (if key in a.meta[id] then a.meta[id][key] else Null) != filters.value[key]))
    ensures forall id :: id in b.live ==> id in b.meta && b.live[id] == a.live[id] && b.meta[id] == a.meta[id]
  {
    KeysAgree(a);
    KeysAgree(b);
    hide RowsNamed, Covered;
    forall id ensures id in b.live <==> id in Entries(b) {
    }
    forall id | id in b.live ensures b.live[id] == a.live[id] && b.meta[id] == a.meta[id] {
      assert Entries(b)[id] == Entries(a)[id];
    }
  }

  lemma DeletedNone(entries: map<Id, Embedding>, filters: Option<Metadata>)
    ensures Deleted(entries, [], filters) == entries
  {
  }

  lemma DeletedOneMore(entries: map<Id, Embedding>, names: seq<Id>, i: nat, filters: Option<Metadata>)
    requires i < |names|
    ensures Deleted(Deleted(entries, names[..i], filters), [names[i]], filters) == Deleted(entries, names[..i + 1], filters)
  {
    hide Passes;
    assert names[..i + 1] == names[..i] + [names[i]];
  }

  lemma CompactedIsConsistent(a: Index, b: Index, survivors: seq<Id>)
    requires Consistent(a) && b.live == a.live && b.meta == a.meta && b.config.dimension == a.config.dimension
    requires b.tombstoned == {} && b.ids == survivors && |b.rows| == |b.ids|
    requires forall id :: id in survivors <==> id in a.live
    requires forall i, j :: 0 <= i < j < |survivors| ==> survivors[i] != survivors[j]
    requires forall row :: 0 <= row < |b.ids| ==> b.rows[row] == b.live[b.ids[row]]
    requires b.rowOf.Keys == set id | id in survivors
    requires forall row :: 0 <= row < |b.ids| ==> b.ids[row] in b.rowOf && b.rowOf[b.ids[row]] == row
    ensures Consistent(b) && Entries(b) == Entries(a)
  {
    forall id | id in b.rowOf ensures LastRow(b.ids, id, b.rowOf[id]) && b.rows[b.rowOf[id]] == b.live[id] {
      var row :| 0 <= row < |survivors| && survivors[row] == id;
    }
    forall row | 0 <= row < |b.rows| ensures |b.rows[row]| == b.config.dimension {
      assert b.ids[row] in a.live;
      assert a.rows[a.rowOf[b.ids[row]]] == b.rows[row];
    }
  }
}
