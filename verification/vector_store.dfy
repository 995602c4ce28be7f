/**
 * The vector index: a flat store of embeddings, ranked by squared Euclidean
 * distance, plus the database table mapping each vector id to the object it
 * embeds. Deletion only removes the mapping row; rebuilding empties the flat
 * store.
 */
module VectorStore {
  import opened Wrappers
  import opened Seqs
  import opened Sorting

  /** The dimension a store is created with by default. */
  const DefaultDimension: nat := 768

  /** A row of the `vector_mappings` table, keyed by vector id. */
  datatype Mapping = Mapping(objectId: string, objectType: string)

  /** The flat index (`vectors`, position = vector id) and the mapping table. */
  datatype Store = Store(dimension: nat, vectors: seq<seq<real>>, mappings: map<nat, Mapping>)

  /** One search result: `(object_id, object_type, distance)`. */
  datatype Hit = Hit(objectId: string, objectType: string, distance: real)

  datatype StoreError =
    | DimensionMismatch        // the index refuses a vector of the wrong length
    | InvalidK                 // the index refuses to search for fewer than one neighbour
    | DuplicateVectorId(id: nat)  // the mapping insert hits an existing primary key

  /** What `add_vector` leaves behind: the store (changed even on failure) and the id or error. */
  datatype AddOutcome = AddOutcome(store: Store, result: Result<nat, StoreError>)

  function EmptyStore(dimension: nat): (s: Store)
    ensures s.dimension == dimension && |s.vectors| == 0 && s.mappings == map[]
  {
    Store(dimension, [], map[])
  }

  /** Every stored vector has the store's dimension. */
  predicate WellFormed(s: Store)
  {
    forall i :: 0 <= i < |s.vectors| ==> |s.vectors[i]| == s.dimension
  }

  /** Every mapping row points at a stored vector: the table never has more rows than the index. */
  predicate MappingsWithinVectors(s: Store)
  {
    forall id :: id in s.mappings ==> id < |s.vectors|
  }

  predicate Valid(s: Store)
  {
    WellFormed(s) && MappingsWithinVectors(s)
  }

  /**
   * `add_vector`: the vector is appended first and its id is the count before
   * the append; then the mapping row is inserted, which fails if a row with
   * that id already exists (the appended vector stays).
   */
  function AddVector(s: Store, v: seq<real>, objectId: string, objectType: string): (r: AddOutcome)
    ensures |v| != s.dimension ==> r == AddOutcome(s, Failure(DimensionMismatch))
    ensures |v| == s.dimension ==> r.store.vectors == s.vectors + [v] && r.store.dimension == s.dimension
    ensures r.result.Success? ==>
      && r.result.value == |s.vectors|
      && r.store.mappings == s.mappings[|s.vectors| := Mapping(objectId, objectType)]
    ensures |v| == s.dimension && |s.vectors| in s.mappings ==>
      r.result == Failure(DuplicateVectorId(|s.vectors|)) && r.store.mappings == s.mappings
    ensures |v| == s.dimension && |s.vectors| !in s.mappings ==> r.result.Success?
  {
    if |v| != s.dimension then AddOutcome(s, Failure(DimensionMismatch))
    else
      var id := |s.vectors|;
      var appended := s.(vectors := s.vectors + [v]);
      if id in s.mappings then AddOutcome(appended, Failure(DuplicateVectorId(id)))
      else AddOutcome(appended.(mappings := s.mappings[id := Mapping(objectId, objectType)]), Success(id))
  }

  /** On a valid store an add of the right dimension succeeds, grows the index by one and stays valid. */
  lemma AddKeepsValid(s: Store, v: seq<real>, objectId: string, objectType: string)
    requires Valid(s) && |v| == s.dimension
    ensures AddVector(s, v, objectId, objectType).result == Success(|s.vectors|)
    ensures Valid(AddVector(s, v, objectId, objectType).store)
    ensures |AddVector(s, v, objectId, objectType).store.vectors| == |s.vectors| + 1
    ensures AddVector(s, v, objectId, objectType).store.mappings[|s.vectors|] == Mapping(objectId, objectType)
  {
    assert |s.vectors| !in s.mappings;
  }

  /** An embedding waiting to be added, with the object it belongs to. */
  datatype Entry = Entry(vector: seq<real>, objectId: string, objectType: string)

  /** Successive `add_vector` calls. */
  function AddAll(s: Store, entries: seq<Entry>): (Store, seq<Result<nat, StoreError>>)
    decreases |entries|
  {
    if |entries| == 0 then (s, [])
    else
      var o := AddVector(s, entries[0].vector, entries[0].objectId, entries[0].objectType);
      var (t, rest) := AddAll(o.store, entries[1..]);
      (t, [o.result] + rest)
  }

  /** Successive adds to a valid store return consecutive ids starting at the current count. */
  lemma {:induction false} AddAllSequentialIds(s: Store, entries: seq<Entry>)
    requires Valid(s)
    requires forall i :: 0 <= i < |entries| ==> |entries[i].vector| == s.dimension
    ensures |AddAll(s, entries).1| == |entries|
    ensures forall i :: 0 <= i < |entries| ==> AddAll(s, entries).1[i] == Success(|s.vectors| + i)
    ensures Valid(AddAll(s, entries).0)
    ensures |AddAll(s, entries).0.vectors| == |s.vectors| + |entries|
    decreases |entries|
  {
    if |entries| > 0 {
      var e := entries[0];
      AddKeepsValid(s, e.vector, e.objectId, e.objectType);
      var o := AddVector(s, e.vector, e.objectId, e.objectType);
      AddAllSequentialIds(o.store, entries[1..]);
    }
  }

  /** `delete_vector`: removes that id's mapping row, if any; the stored vector stays. */
  function DeleteVector(s: Store, id: nat): (r: Store)
    ensures r.vectors == s.vectors && r.dimension == s.dimension
    ensures id !in r.mappings
    ensures forall j :: j != id ==> (j in r.mappings <==> j in s.mappings)
    ensures forall j :: j in r.mappings ==> r.mappings[j] == s.mappings[j]
    ensures id !in s.mappings ==> r == s
  {
    if id in s.mappings then s.(mappings := s.mappings - {id}) else s
  }

  /** Deletion keeps a store valid and does not free its id: the next add still gets the old count. */
  lemma DeleteDoesNotReuseIds(s: Store, id: nat, v: seq<real>, objectId: string, objectType: string)
    requires Valid(s) && |v| == s.dimension
    ensures Valid(DeleteVector(s, id))
    ensures AddVector(DeleteVector(s, id), v, objectId, objectType).result == Success(|s.vectors|)
  {
    AddKeepsValid(DeleteVector(s, id), v, objectId, objectType);
  }

  /* ---------- search ---------- */

  /** Squared Euclidean distance over the common length, as `IndexFlatL2` reports it. */
  function SqDist(a: seq<real>, b: seq<real>): (d: real)
    ensures d >= 0.0
    ensures a == b ==> d == 0.0
    decreases |a|
  {
    if |a| == 0 || |b| == 0 then 0.0
    else (a[0] - b[0]) * (a[0] - b[0]) + SqDist(a[1..], b[1..])
  }

  /** A vector id with its distance to the query. */
  datatype Scored = Scored(id: nat, distance: real)

  predicate Closer(a: Scored, b: Scored)
  {
    a.distance <= b.distance
  }

  function Scores(s: Store, q: seq<real>): (r: seq<Scored>)
    ensures |r| == |s.vectors|
    ensures forall i :: 0 <= i < |r| ==> r[i] == Scored(i, SqDist(s.vectors[i], q))
  {
    seq(|s.vectors|, i requires 0 <= i < |s.vectors| => Scored(i, SqDist(s.vectors[i], q)))
  }

  /** Every stored vector ranked by distance to `q`, nearest first (ties in some order). */
  function Ranking(s: Store, q: seq<real>): (r: seq<Scored>)
    ensures multiset(r) == multiset(Scores(s, q))
    ensures SortedBy(Closer, r)
  {
    assert TotalPreorder(Closer);
    Sort(Closer, Scores(s, q))
  }

  /** A ranked id survives when it has a mapping row of the requested type. */
  predicate Resolvable(s: Store, objectType: Option<string>, c: Scored)
  {
    c.id in s.mappings && (objectType.None? || s.mappings[c.id].objectType == objectType.value)
  }

  /** The resolvable entries of a ranking, in ranking order. */
  function KeepResolvable(s: Store, objectType: Option<string>, cs: seq<Scored>): (r: seq<Scored>)
    ensures |r| <= |cs|
    ensures forall x :: x in r <==> x in cs && Resolvable(s, objectType, x)
    ensures SortedBy(Closer, cs) ==> SortedBy(Closer, r)
    decreases |cs|
  {
    if |cs| == 0 then []
    else
      var rest := KeepResolvable(s, objectType, cs[1..]);
      HeadBeforeRest(cs, rest);
      if Resolvable(s, objectType, cs[0]) then [cs[0]] + rest else rest
  }

  lemma HeadBeforeRest(cs: seq<Scored>, rest: seq<Scored>)
    requires |cs| > 0 && forall x :: x in rest ==> x in cs[1..]
    ensures SortedBy(Closer, cs) ==> forall x :: x in rest ==> Closer(cs[0], x)
  {
    if SortedBy(Closer, cs) {
      forall x | x in rest ensures Closer(cs[0], x) {
        var j :| 0 <= j < |cs[1..]| && cs[1..][j] == x;
        assert cs[j + 1] == x;
      }
    }
  }

  /** The ranked ids a search reports: the `k` nearest, then only those with a matching row. */
  function Survivors(s: Store, q: seq<real>, k: nat, objectType: Option<string>): (r: seq<Scored>)
    ensures forall c :: c in r <==> c in Take(Ranking(s, q), k) && Resolvable(s, objectType, c)
    ensures SortedBy(Closer, r)
    ensures forall i :: 0 <= i < |r| ==> Resolvable(s, objectType, r[i])
    ensures forall i :: 0 <= i < |r| ==> r[i].id in s.mappings
    ensures |r| <= k && |r| <= |s.vectors|
  {
    var top := Take(Ranking(s, q), k);
    TakeSorted(Ranking(s, q), top);
    var r := KeepResolvable(s, objectType, top);
    assert forall i :: 0 <= i < |r| ==> r[i] in r;
    r
  }

  lemma TakeSorted(s: seq<Scored>, t: seq<Scored>)
    requires SortedBy(Closer, s) && |t| <= |s| && t == s[..|t|]
    ensures SortedBy(Closer, t)
  {
  }

  function HitsOf(s: Store, survivors: seq<Scored>): (r: seq<Hit>)
    requires forall i :: 0 <= i < |survivors| ==> survivors[i].id in s.mappings
    ensures |r| == |survivors|
    ensures forall i :: 0 <= i < |r| ==>
      r[i] == Hit(s.mappings[survivors[i].id].objectId, s.mappings[survivors[i].id].objectType, survivors[i].distance)
  {
    seq(|survivors|, i requires 0 <= i < |survivors| =>
      Hit(s.mappings[survivors[i].id].objectId, s.mappings[survivors[i].id].objectType, survivors[i].distance))
  }

  /** A ranked id whose mapping row is absent is an orphan or was deleted. */
  predicate HitOfId(s: Store, q: seq<real>, h: Hit, id: nat)
  {
    && id in s.mappings && id < |s.vectors|
    && s.mappings[id] == Mapping(h.objectId, h.objectType)
    && h.distance == SqDist(s.vectors[id], q)
  }

  /**
   * `search`: nothing from an empty index; the index refuses a query of the
   * wrong length or a non-positive `k`; without a database handle nothing is
   * resolved; otherwise the `min(k, count)` nearest vectors are resolved through
   * the mapping table, unmapped ids are skipped and the type filter is applied
   * after ranking, so fewer than `k` results may come back.
   */
  function Search(s: Store, q: seq<real>, k: int, withDb: bool, objectType: Option<string>): (r: Result<seq<Hit>, StoreError>)
    ensures |s.vectors| == 0 ==> r == Success([])
    ensures r.Failure? <==> |s.vectors| > 0 && (|q| != s.dimension || k <= 0)
    ensures r.Success? && !withDb ==> r.value == []
    ensures r.Success? ==> |r.value| <= |s.vectors|
    ensures r.Success? && |r.value| > 0 ==> |r.value| <= k
    ensures r.Success? ==> forall i, j :: 0 <= i < j < |r.value| ==> r.value[i].distance <= r.value[j].distance
    ensures r.Success? && objectType.Some? ==> forall i :: 0 <= i < |r.value| ==> r.value[i].objectType == objectType.value
    ensures r.Success? ==> forall h :: h in r.value ==> exists id: nat :: HitOfId(s, q, h, id)
  {
    if |s.vectors| == 0 then Success([])
    else if |q| != s.dimension then Failure(DimensionMismatch)
    else if k <= 0 then Failure(InvalidK)
    else if !withDb then Success([])
    else
      ResolvedHitsFacts(s, q, k, objectType);
      Success(ResolvedHits(s, q, k, objectType))
  }

  /** The hits a search with a database handle reports. */
  function ResolvedHits(s: Store, q: seq<real>, k: nat, objectType: Option<string>): seq<Hit>
  {
    var sv := Survivors(s, q, k, objectType);
    HitsOf(s, sv)
  }

  lemma ResolvedHitsFacts(s: Store, q: seq<real>, k: nat, objectType: Option<string>)
    ensures var r := ResolvedHits(s, q, k, objectType);
      && |r| <= k && |r| <= |s.vectors|
      && (forall i, j :: 0 <= i < j < |r| ==> r[i].distance <= r[j].distance)
      && (objectType.Some? ==> forall i :: 0 <= i < |r| ==> r[i].objectType == objectType.value)
      && (forall h :: h in r ==> exists id: nat :: HitOfId(s, q, h, id))
  {
    var sv := Survivors(s, q, k, objectType);
    var hits := HitsOf(s, sv);
    assert hits == ResolvedHits(s, q, k, objectType);
    SurvivorsAreStored(s, q, k, objectType);
    HitsAreStored(s, q, objectType, sv, hits);
    HitsSorted(sv, s, hits);
  }

  lemma HitsSorted(sv: seq<Scored>, s: Store, hits: seq<Hit>)
    requires SortedBy(Closer, sv)
    requires forall i :: 0 <= i < |sv| ==> sv[i].id in s.mappings
    requires hits == HitsOf(s, sv)
    ensures forall i, j :: 0 <= i < j < |hits| ==> hits[i].distance <= hits[j].distance
  {
    forall i, j | 0 <= i < j < |hits| ensures hits[i].distance <= hits[j].distance {
      assert Closer(sv[i], sv[j]);
    }
  }

  lemma HitsAreStored(s: Store, q: seq<real>, objectType: Option<string>, sv: seq<Scored>, hits: seq<Hit>)
    requires forall i :: 0 <= i < |sv| ==> Resolvable(s, objectType, sv[i])
    requires forall i :: 0 <= i < |sv| ==> sv[i].id in s.mappings
    requires forall i :: 0 <= i < |sv| ==> sv[i].id < |s.vectors| && sv[i].distance == SqDist(s.vectors[sv[i].id], q)
    requires hits == HitsOf(s, sv)
    ensures forall h :: h in hits ==> exists id: nat :: HitOfId(s, q, h, id)
    ensures objectType.Some? ==> forall i :: 0 <= i < |hits| ==> hits[i].objectType == objectType.value
  {
    forall h | h in hits ensures exists id: nat :: HitOfId(s, q, h, id) {
      var i :| 0 <= i < |hits| && hits[i] == h;
      assert HitOfId(s, q, h, sv[i].id);
    }
  }

  lemma SurvivorsAreStored(s: Store, q: seq<real>, k: nat, objectType: Option<string>)
    ensures forall i :: 0 <= i < |Survivors(s, q, k, objectType)| ==>
      var c := Survivors(s, q, k, objectType)[i];
      c.id < |s.vectors| && c.distance == SqDist(s.vectors[c.id], q)
  {
    var ranking := Ranking(s, q);
    var top := Take(ranking, k);
    var sv := Survivors(s, q, k, objectType);
    forall i | 0 <= i < |sv|
      ensures sv[i].id < |s.vectors| && sv[i].distance == SqDist(s.vectors[sv[i].id], q)
    {
      assert sv[i] in top;
      var j :| 0 <= j < |top| && top[j] == sv[i];
      assert ranking[j] in multiset(Scores(s, q));
    }
  }

  /* ---------- what a search finds ---------- */

  /** The hit a search reports for a mapped vector id. */
  function HitFor(s: Store, q: seq<real>, id: nat): (h: Hit)
    requires id in s.mappings && id < |s.vectors|
    ensures HitOfId(s, q, h, id)
  {
    Hit(s.mappings[id].objectId, s.mappings[id].objectType, SqDist(s.vectors[id], q))
  }

  /** When the index accepts the query, a search with a database handle reports the resolved survivors. */
  lemma SearchResolves(s: Store, q: seq<real>, k: int, objectType: Option<string>)
    requires |s.vectors| > 0 && |q| == s.dimension && k > 0
    ensures Search(s, q, k, true, objectType) == Success(HitsOf(s, Survivors(s, q, k, objectType)))
  {
  }

  /** A ranked entry is a scored stored vector. */
  lemma RankingEntry(s: Store, q: seq<real>, j: int)
    requires 0 <= j < |Ranking(s, q)|
    ensures Ranking(s, q)[j].id < |s.vectors|
    ensures Ranking(s, q)[j] == Scored(Ranking(s, q)[j].id, SqDist(s.vectors[Ranking(s, q)[j].id], q))
  {
    assert Ranking(s, q)[j] in multiset(Scores(s, q));
  }

  /** Every stored vector has a place in the ranking. */
  lemma InRanking(s: Store, q: seq<real>, id: nat) returns (j: nat)
    requires id < |s.vectors|
    ensures j < |Ranking(s, q)| && Ranking(s, q)[j] == Scored(id, SqDist(s.vectors[id], q))
  {
    var c := Scored(id, SqDist(s.vectors[id], q));
    assert Scores(s, q)[id] == c;
    assert c in multiset(Ranking(s, q));
    j :| 0 <= j < |Ranking(s, q)| && Ranking(s, q)[j] == c;
  }

  /** A surviving entry shows up in the hits at the same position. */
  lemma SurvivorIsHit(s: Store, q: seq<real>, k: nat, objectType: Option<string>, id: nat)
    requires id < |s.vectors|
    requires Scored(id, SqDist(s.vectors[id], q)) in Survivors(s, q, k, objectType)
    ensures id in s.mappings
    ensures HitFor(s, q, id) in HitsOf(s, Survivors(s, q, k, objectType))
  {
    var sv := Survivors(s, q, k, objectType);
    var j :| 0 <= j < |sv| && sv[j] == Scored(id, SqDist(s.vectors[id], q));
    assert HitsOf(s, sv)[j] == HitFor(s, q, id);
  }

  /**
   * Nearest neighbours: a mapped vector of the requested type that is strictly
   * closer to the query than some reported hit is reported too.
   */
  lemma SearchIsNearest(s: Store, q: seq<real>, k: int, objectType: Option<string>, i: nat, id: nat)
    requires |s.vectors| > 0 && |q| == s.dimension && k > 0
    requires i < |Search(s, q, k, true, objectType).value|
    requires id < |s.vectors| && Resolvable(s, objectType, Scored(id, 0.0))
    requires SqDist(s.vectors[id], q) < Search(s, q, k, true, objectType).value[i].distance
    ensures HitFor(s, q, id) in Search(s, q, k, true, objectType).value
  {
    SearchResolves(s, q, k, objectType);
    var ranking := Ranking(s, q);
    var top := Take(ranking, k);
    var sv := Survivors(s, q, k, objectType);
    assert sv == KeepResolvable(s, objectType, top);
    // the reported hit at `i` comes from a survivor inside the top `k`
    assert sv[i] in sv;
    assert sv[i] in top;
    var p :| 0 <= p < |top| && top[p] == sv[i];
    var c := Scored(id, SqDist(s.vectors[id], q));
    var j := InRanking(s, q, id);
    assert top[j] == c;
    assert Resolvable(s, objectType, c);
    assert c in sv;
    SurvivorIsHit(s, q, k, objectType, id);
  }

  /** When `k` covers the whole index, every mapped vector of the requested type is reported. */
  lemma SearchAllWhenKLarge(s: Store, q: seq<real>, k: int, objectType: Option<string>, id: nat)
    requires |s.vectors| > 0 && |q| == s.dimension && k >= |s.vectors|
    requires id < |s.vectors| && Resolvable(s, objectType, Scored(id, 0.0))
    ensures HitFor(s, q, id) in Search(s, q, k, true, objectType).value
  {
    SearchResolves(s, q, k, objectType);
    var ranking := Ranking(s, q);
    var top := Take(ranking, k);
    assert top == ranking;
    var c := Scored(id, SqDist(s.vectors[id], q));
    var j := InRanking(s, q, id);
    assert c in top;
    assert c in Survivors(s, q, k, objectType);
    SurvivorIsHit(s, q, k, objectType, id);
  }

  /** Keeps the scored vectors no farther from the query than `d`. */
  function NoFartherThan(d: real): Scored -> bool
  {
    (c: Scored) => c.distance <= d
  }

  /** How many stored vectors are no farther from `q` than `d`. */
  function NotFarther(s: Store, q: seq<real>, d: real): nat
  {
    Count(NoFartherThan(d), Scores(s, q))
  }

  /** In a ranking, the entry at `j` and every entry before it are no farther than it. */
  lemma RankedPrefixNoFarther(r: seq<Scored>, j: nat)
    requires SortedBy(Closer, r) && j < |r|
    ensures Count(NoFartherThan(r[j].distance), r) >= j + 1
  {
    var p := NoFartherThan(r[j].distance);
    forall i | 0 <= i < j + 1 ensures p(r[i]) {
      if i < j {
        assert Closer(r[i], r[j]);
      }
    }
    CountAtLeastPrefix(p, r, j + 1);
  }

  /**
   * Nearest neighbours, whatever order ties are ranked in: a mapped vector of
   * the requested type is reported when at most `k` stored vectors, itself
   * included, are no farther from the query than it is.
   */
  lemma SearchFindsNear(s: Store, q: seq<real>, k: int, objectType: Option<string>, id: nat)
    requires |q| == s.dimension && k > 0
    requires id < |s.vectors| && Resolvable(s, objectType, Scored(id, 0.0))
    requires NotFarther(s, q, SqDist(s.vectors[id], q)) <= k
    ensures HitFor(s, q, id) in Search(s, q, k, true, objectType).value
  {
    SearchResolves(s, q, k, objectType);
    var ranking := Ranking(s, q);
    var j := InRanking(s, q, id);
    var c := ranking[j];
    RankedPrefixNoFarther(ranking, j);
    CountPermutation(NoFartherThan(c.distance), ranking, Scores(s, q));
    var top := Take(ranking, k);
    assert j < |top| && top[j] == c;
    assert c in Survivors(s, q, k, objectType);
    SurvivorIsHit(s, q, k, objectType, id);
  }

  /** When every other stored vector is strictly farther, only one is this close. */
  lemma StrictlyNearestIsAlone(s: Store, q: seq<real>, id: nat)
    requires id < |s.vectors|
    requires forall j :: 0 <= j < |s.vectors| && j != id ==> SqDist(s.vectors[j], q) > SqDist(s.vectors[id], q)
    ensures NotFarther(s, q, SqDist(s.vectors[id], q)) == 1
  {
    var scores := Scores(s, q);
    var p := NoFartherThan(SqDist(s.vectors[id], q));
    var before, after := scores[..id], scores[id + 1..];
    assert scores == before + [scores[id]] + after;
    FilterAppend(p, before + [scores[id]], after);
    FilterAppend(p, before, [scores[id]]);
    NoneClose(p, before, s, q, id, 0);
    NoneClose(p, after, s, q, id, id + 1);
  }

  /** A run of the scores that skips `id` has nothing as close as `id`. */
  lemma NoneClose(p: Scored -> bool, run: seq<Scored>, s: Store, q: seq<real>, id: nat, from: nat)
    requires id < |s.vectors| && p == NoFartherThan(SqDist(s.vectors[id], q))
    requires from + |run| <= |s.vectors| && (id < from || from + |run| <= id)
    requires forall i :: 0 <= i < |run| ==> run[i] == Scores(s, q)[from + i]
    requires forall j :: 0 <= j < |s.vectors| && j != id ==> SqDist(s.vectors[j], q) > SqDist(s.vectors[id], q)
    ensures Filter(p, run) == []
  {
    forall i | 0 <= i < |run| ensures !p(run[i]) {
      assert run[i] == Scored(from + i, SqDist(s.vectors[from + i], q));
    }
    FilterNone(p, run);
  }

  /**
   * A mapped vector of the requested type that is strictly nearer the query
   * than every other stored vector is the first hit of the search.
   */
  lemma SearchNearestComesFirst(s: Store, q: seq<real>, k: int, objectType: Option<string>, id: nat)
    requires |q| == s.dimension && k > 0
    requires id < |s.vectors| && Resolvable(s, objectType, Scored(id, 0.0))
    requires forall j :: 0 <= j < |s.vectors| && j != id ==> SqDist(s.vectors[j], q) > SqDist(s.vectors[id], q)
    ensures var r := Search(s, q, k, true, objectType);
      r.Success? && |r.value| > 0 && r.value[0] == HitFor(s, q, id)
  {
    StrictlyNearestIsAlone(s, q, id);
    SearchFindsNear(s, q, k, objectType, id);
    var r := Search(s, q, k, true, objectType).value;
    NearestHeadsHits(s, q, r, id);
  }

  /** In hits sorted by distance, the hit of a strictly nearest vector comes first. */
  lemma NearestHeadsHits(s: Store, q: seq<real>, r: seq<Hit>, id: nat)
    requires id < |s.vectors| && id in s.mappings && HitFor(s, q, id) in r
    requires forall i, j :: 0 <= i < j < |r| ==> r[i].distance <= r[j].distance
    requires forall h :: h in r ==> exists other: nat :: HitOfId(s, q, h, other)
    requires forall j :: 0 <= j < |s.vectors| && j != id ==> SqDist(s.vectors[j], q) > SqDist(s.vectors[id], q)
    ensures |r| > 0 && r[0] == HitFor(s, q, id)
  {
    var m :| 0 <= m < |r| && r[m] == HitFor(s, q, id);
    assert r[0].distance <= SqDist(s.vectors[id], q);
    assert r[0] in r;
    var other: nat :| HitOfId(s, q, r[0], other);
  }

  /** Adding one vector to an empty store and searching for it finds exactly that object at distance zero. */
  lemma AddThenSearchFindsIt(dimension: nat, v: seq<real>, objectId: string, objectType: string, k: int)
    requires |v| == dimension && k > 0
    ensures var t := AddVector(EmptyStore(dimension), v, objectId, objectType).store;
      && Search(t, v, k, true, None) == Success([Hit(objectId, objectType, 0.0)])
      && Search(t, v, k, true, Some(objectType)) == Success([Hit(objectId, objectType, 0.0)])
  {
    var t := AddVector(EmptyStore(dimension), v, objectId, objectType).store;
    assert t.vectors == [v];
    var c := Scored(0, 0.0);
    assert Scores(t, v) == [c];
    var ranking := Ranking(t, v);
    assert |ranking| == 1;
    assert ranking[0] in multiset([c]);
    assert ranking == [c];
    assert Take(ranking, k) == [c];
    assert KeepResolvable(t, None, [c]) == [c];
    assert KeepResolvable(t, Some(objectType), [c]) == [c];
    assert HitsOf(t, [c]) == [Hit(objectId, objectType, 0.0)];
    SearchResolves(t, v, k, None);
    SearchResolves(t, v, k, Some(objectType));
  }

  /** The scored entries whose id is not `id`. */
  function WithoutId(cs: seq<Scored>, id: nat): (r: seq<Scored>)
    ensures forall c :: c in r <==> c in cs && c.id != id
    decreases |cs|
  {
    if |cs| == 0 then []
    else if cs[0].id == id then WithoutId(cs[1..], id)
    else [cs[0]] + WithoutId(cs[1..], id)
  }

  lemma {:induction false} KeepResolvableAfterDelete(s: Store, objectType: Option<string>, cs: seq<Scored>, id: nat)
    ensures KeepResolvable(DeleteVector(s, id), objectType, cs) == WithoutId(KeepResolvable(s, objectType, cs), id)
    decreases |cs|
  {
    if |cs| > 0 {
      KeepResolvableAfterDelete(s, objectType, cs[1..], id);
      var rest := KeepResolvable(s, objectType, cs[1..]);
      if Resolvable(s, objectType, cs[0]) {
        assert KeepResolvable(s, objectType, cs) == [cs[0]] + rest;
        assert ([cs[0]] + rest)[1..] == rest;
      }
    }
  }

  /**
   * `delete_vector` changes what a search resolves only by dropping that id:
   * the ranking is the same (the vector stays) and the deleted id no longer survives.
   */
  lemma DeleteOnlyDropsThatId(s: Store, q: seq<real>, k: nat, objectType: Option<string>, id: nat)
    ensures Survivors(DeleteVector(s, id), q, k, objectType) == WithoutId(Survivors(s, q, k, objectType), id)
    ensures forall c :: c in Survivors(DeleteVector(s, id), q, k, objectType) ==> c.id != id
  {
    var d := DeleteVector(s, id);
    assert Scores(d, q) == Scores(s, q);
    assert Ranking(d, q) == Ranking(s, q);
    KeepResolvableAfterDelete(s, objectType, Take(Ranking(s, q), k), id);
  }

  /* ---------- rebuilding ---------- */

  /**
   * `rebuild_index` as written: the flat index is replaced by an empty one and
   * the mapping table is left as it is (the embeddings are not re-fetched).
   */
  function RebuildIndex(s: Store): (r: Store)
    ensures |r.vectors| == 0
    ensures r.mappings == s.mappings && r.dimension == s.dimension
  {
    s.(vectors := [])
  }

  /** After a rebuild every search comes back empty, whatever is still mapped. */
  lemma SearchAfterRebuildIsEmpty(s: Store, q: seq<real>, k: int, withDb: bool, objectType: Option<string>)
    ensures Search(RebuildIndex(s), q, k, withDb, objectType) == Success([])
  {
  }

  /** A rebuild of a store that still maps anything breaks the mappings-within-vectors invariant. */
  lemma RebuildBreaksInvariant(s: Store, id: nat)
    requires id in s.mappings
    ensures !MappingsWithinVectors(RebuildIndex(s))
  {
    assert id in RebuildIndex(s).mappings;
  }

  /**
   * After a rebuild the next add is given id 0 again; if vector 0 was still
   * mapped, its mapping insert collides and the add fails, although the vector
   * has already been appended.
   */
  lemma RebuildThenAddCollides(s: Store, v: seq<real>, objectId: string, objectType: string)
    requires 0 in s.mappings && |v| == s.dimension
    ensures AddVector(RebuildIndex(s), v, objectId, objectType).result == Failure(DuplicateVectorId(0))
    ensures AddVector(RebuildIndex(s), v, objectId, objectType).store.vectors == [v]
    ensures AddVector(RebuildIndex(s), v, objectId, objectType).store.mappings == s.mappings
  {
  }

  /** The mapped ids below `n`, in increasing order. */
  function MappedBelow(s: Store, n: nat): (r: seq<nat>)
    ensures forall i :: 0 <= i < |r| ==> r[i] < n && r[i] in s.mappings
    ensures forall i, j :: 0 <= i < j < |r| ==> r[i] < r[j]
    ensures forall id: nat :: id < n && id in s.mappings ==> id in r
    ensures |r| <= n
  {
    if n == 0 then []
    else
      var rest := MappedBelow(s, n - 1);
      if n - 1 in s.mappings then rest + [n - 1] else rest
  }

  /**
   * The rebuild the source evidently intends: the live (still mapped) vectors
   * are copied, in id order, into a fresh index and the mapping table is
   * renumbered to their new positions, dropping the deleted vectors for good.
   */
  function CompactIndex(s: Store): (r: Store)
    ensures r.dimension == s.dimension
    ensures |r.vectors| == |MappedBelow(s, |s.vectors|)|
    ensures forall j :: 0 <= j < |r.vectors| ==>
      var id := MappedBelow(s, |s.vectors|)[j];
      r.vectors[j] == s.vectors[id] && j in r.mappings && r.mappings[j] == s.mappings[id]
    ensures forall j: nat :: j in r.mappings <==> j < |r.vectors|
  {
    var live := MappedBelow(s, |s.vectors|);
    Store(s.dimension,
          seq(|live|, j requires 0 <= j < |live| => s.vectors[live[j]]),
          map j: nat | j < |live| :: s.mappings[live[j]])
  }

  /** Compaction keeps a well-formed store valid and drops exactly the unmapped vectors. */
  lemma CompactIndexRestoresInvariant(s: Store)
    requires WellFormed(s)
    ensures Valid(CompactIndex(s))
    ensures |CompactIndex(s).vectors| <= |s.vectors|
  {
    var r := CompactIndex(s);
    var live := MappedBelow(s, |s.vectors|);
    forall j | 0 <= j < |r.vectors| ensures |r.vectors[j]| == r.dimension {
      assert r.vectors[j] == s.vectors[live[j]];
    }
  }

  /** Unlike the rebuild as written, an add after compaction succeeds with the next dense id. */
  lemma CompactThenAddSucceeds(s: Store, v: seq<real>, objectId: string, objectType: string)
    requires WellFormed(s) && |v| == s.dimension
    ensures AddVector(CompactIndex(s), v, objectId, objectType).result == Success(|CompactIndex(s).vectors|)
  {
    CompactIndexRestoresInvariant(s);
    AddKeepsValid(CompactIndex(s), v, objectId, objectType);
  }

  /** Compaction keeps what a search can resolve: every live object is still found at the same distance. */
  lemma CompactKeepsObjects(s: Store, q: seq<real>, id: nat)
    requires WellFormed(s) && id < |s.vectors| && id in s.mappings
    ensures exists j: nat :: j < |CompactIndex(s).vectors| && HitOfId(CompactIndex(s), q, HitFor(s, q, id), j)
  {
    var live := MappedBelow(s, |s.vectors|);
    assert id in live;
    var j :| 0 <= j < |live| && live[j] == id;
    assert HitOfId(CompactIndex(s), q, HitFor(s, q, id), j);
  }
}
