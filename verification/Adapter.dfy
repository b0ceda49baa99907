/** The unsharded Redis adapter (internal/storage/redis_adapter.go) over one in-memory database. */
module Adapter {
  import opened Common
  import opened Vectors
  import opened Store
  import opened TopK
  import opened Metrics

  // ----- What a search should return -----

  datatype SearchRequest = SearchRequest(index: string, vector: seq<real>, filter: map<string, string>)

  /** What a scan works with: the request and a scoring function. */
  datatype Query = Query(
    index: string,
    vector: seq<real>,
    filter: map<string, string>,
    distance: (seq<real>, seq<real>) -> real)

  /** The adapter scores every request with the cosine distance, whatever metric the index declares. */
  function CosineQuery(request: SearchRequest, sqrt: real -> real): Query {
    Query(request.index, request.vector, request.filter, GetDistanceFunc("cosine", sqrt))
  }

  /** Go's map read: a missing metadata key reads as the empty string. */
  function MetadataValue(metadata: map<string, string>, key: string): string {
    if key in metadata then metadata[key] else ""
  }

  predicate Matches(filter: map<string, string>, metadata: map<string, string>) {
    forall k :: k in filter ==> MetadataValue(metadata, k) == filter[k]
  }

  /** The id is listed, its vector key is present, and the metadata passes the filter. */
  predicate IsHit(db: Db, q: Query, id: string) {
    var v := Visible(db, q.index, id);
    v.Some? && Matches(q.filter, v.value.metadata)
  }

  function HitOf(db: Db, q: Query, id: string): SearchResult
    requires IsHit(db, q, id)
  {
    var v := Visible(db, q.index, id).value;
    SearchResult(v.id, q.distance(q.vector, v.values), v)
  }

  /** The hits among the given ids, in order. */
  function HitIds(db: Db, q: Query, ids: seq<string>): (hits: seq<string>)
    ensures forall id :: id in hits <==> id in ids && IsHit(db, q, id)
  {
    if ids == [] then [] else
      var last := ids[|ids| - 1];
      assert ids == ids[..|ids| - 1] + [last];
      HitIds(db, q, ids[..|ids| - 1]) + (if IsHit(db, q, last) then [last] else [])
  }

  function HitList(db: Db, q: Query, ids: seq<string>): (hits: seq<SearchResult>)
    requires forall id :: id in ids ==> IsHit(db, q, id)
    ensures |hits| == |ids|
    ensures forall i :: 0 <= i < |ids| ==> hits[i] == HitOf(db, q, ids[i])
  {
    seq(|ids|, i requires 0 <= i < |ids| => HitOf(db, q, ids[i]))
  }

  /** Everything a search of this database should consider: each hit once. */
  ghost function Hits(db: Db, q: Query): seq<SearchResult> {
    HitList(db, q, HitOrder(db, q))
  }

  ghost function HitOrder(db: Db, q: Query): (ids: seq<string>)
    ensures NoDuplicates(ids) && forall id :: id in ids <==> IsHit(db, q, id)
  {
    ListOf(set id | id in Members(db, q.index) && IsHit(db, q, id))
  }

  lemma {:induction false} HitListIgnoresOrder(db: Db, q: Query, a: seq<string>, b: seq<string>)
    requires multiset(a) == multiset(b)
    requires (forall id :: id in a ==> IsHit(db, q, id)) && forall id :: id in b ==> IsHit(db, q, id)
    ensures multiset(HitList(db, q, a)) == multiset(HitList(db, q, b))
  {
    if a == [] {
      assert |multiset(b)| == 0;
    } else {
      var j := MatchFirst(a, b);
      var rest := b[..j] + b[j + 1..];
      var hits := HitList(db, q, b);
      HitListIgnoresOrder(db, q, a[1..], rest);
      assert HitList(db, q, a) == [HitOf(db, q, a[0])] + HitList(db, q, a[1..]);
      assert HitList(db, q, rest) == hits[..j] + hits[j + 1..];
      SplitOff(hits, j);
    }
  }

  lemma {:induction false} HitIdsNoDuplicates(db: Db, q: Query, ids: seq<string>)
    requires NoDuplicates(ids)
    ensures NoDuplicates(HitIds(db, q, ids))
  {
    if ids != [] {
      HitIdsNoDuplicates(db, q, ids[..|ids| - 1]);
    }
  }

  /** The ids of a sorted set, each once, highest score first (ties in any order). */
  ghost predicate IsNewestFirst(members: map<string, int>, ids: seq<string>) {
    && NoDuplicates(ids)
    && (forall id :: id in ids <==> id in members)
    && forall i, j :: 0 <= i < j < |ids| ==> members[ids[i]] >= members[ids[j]]
  }

  lemma {:induction false} NewestExists(members: map<string, int>, rest: set<string>) returns (newest: string)
    requires rest <= members.Keys && rest != {}
    ensures newest in rest && forall id :: id in rest ==> members[id] <= members[newest]
  {
    newest :| newest in rest;
    if rest != {newest} {
      var other := NewestExists(members, rest - {newest});
      if members[other] > members[newest] {
        newest := other;
      }
    }
  }

  // ----- Select, truncate, sort -----

  /** Quickselect followed by the exchange sort leaves the k best scores in front. */
  lemma SelectedIsTopK(all: seq<SearchResult>, selected: seq<SearchResult>, kept: seq<SearchResult>, k: nat)
    requires multiset(all) == multiset(selected) && k <= |selected|
    requires SplitAt(selected, k)
    requires multiset(kept) == multiset(selected[..k]) && Descending(Scores(kept))
    ensures IsTopK(Scores(kept), Scores(all), k)
  {
    assert |multiset(all)| == |all| && |multiset(selected)| == |selected|;
    assert |multiset(kept)| == |kept| && |multiset(selected[..k])| == k;
    forall x ensures AtLeast(Scores(kept), x) == Min(k, AtLeast(Scores(all), x)) {
      SplitCapsCounts(selected, k, x);
      ScoreCountsIgnoreOrder(all, selected, x);
      ScoreCountsIgnoreOrder(kept, selected[..k], x);
    }
  }

  lemma SplitCapsCounts(s: seq<SearchResult>, k: nat, x: real)
    requires k <= |s| && SplitAt(s, k)
    ensures AtLeast(Scores(s[..k]), x) == Min(k, AtLeast(Scores(s), x))
  {
    var front, back := Scores(s[..k]), Scores(s[k..]);
    assert Scores(s) == front + back;
    AtLeastConcat(front, back, x);
    if j :| 0 <= j < |back| && back[j] >= x {
      assert s[k + j].score >= x;
      AtLeastAll(front, x);
    } else {
      AtLeastNone(back, x);
    }
  }

  lemma {:induction false} ScoreCountsIgnoreOrder(s: seq<SearchResult>, t: seq<SearchResult>, x: real)
    requires multiset(s) == multiset(t)
    ensures AtLeast(Scores(s), x) == AtLeast(Scores(t), x)
  {
    if s == [] {
      assert |multiset(t)| == 0;
    } else {
      var j := MatchFirst(s, t);
      var rest := t[..j] + t[j + 1..];
      ScoreCountsIgnoreOrder(s[1..], rest, x);
      assert Scores(s)[1..] == Scores(s[1..]);
      assert Scores(rest) == Scores(t)[..j] + Scores(t)[j + 1..];
      AtLeastSplit(Scores(t), j, x);
    }
  }

  /** kept holds entries of all, and their scores are the k best of all. */
  ghost predicate IsBestOf(kept: seq<SearchResult>, all: seq<SearchResult>, k: nat) {
    multiset(kept) <= multiset(all) && IsTopK(Scores(kept), Scores(all), k)
  }

  lemma BestIgnoresOrder(kept: seq<SearchResult>, all: seq<SearchResult>, other: seq<SearchResult>, k: nat)
    requires IsBestOf(kept, all, k) && multiset(all) == multiset(other)
    ensures IsBestOf(kept, other, k)
  {
    assert |multiset(all)| == |all| && |multiset(other)| == |other|;
    forall x ensures AtLeast(Scores(kept), x) == Min(k, AtLeast(Scores(other), x)) {
      ScoreCountsIgnoreOrder(all, other, x);
      assert AtLeast(Scores(kept), x) == Min(k, AtLeast(Scores(all), x));
    }
  }

  /** The select-truncate-sort sequence that both the adapter and the service run on a result slice. */
  method KeepBest(results: seq<SearchResult>, topK: nat) returns (kept: seq<SearchResult>)
    ensures IsBestOf(kept, results, topK)
  {
    var a := new SearchResult[|results|](i requires 0 <= i < |results| => results[i]);
    assert a[..] == results;
    var n := a.Length;
    if n > topK {
      QuickSelectResults(a, topK);
      n := topK;
    }
    ghost var selected := a[..];
    SortResultsByScore(a, n);
    RearrangedSegment(selected, a[..], 0, n);
    kept := a[..n];
    assert a[..][0..n] == kept && selected[0..n] == selected[..n];
    FrontIsBest(results, selected, kept, n, topK);
  }

  lemma FrontIsBest(all: seq<SearchResult>, selected: seq<SearchResult>, kept: seq<SearchResult>, n: nat, k: nat)
    requires multiset(all) == multiset(selected) && n == Min(k, |selected|) && SplitAt(selected, n)
    requires multiset(kept) == multiset(selected[..n]) && Descending(Scores(kept))
    ensures IsBestOf(kept, all, k)
  {
    assert selected == selected[..n] + selected[n..];
    assert |multiset(all)| == |all| && |multiset(selected)| == |selected|;
    assert |multiset(kept)| == |kept| && |multiset(selected[..n])| == n;
    SelectedIsTopK(all, selected, kept, n);
    forall x ensures AtLeast(Scores(kept), x) == Min(k, AtLeast(Scores(all), x)) {
      assert AtLeast(Scores(kept), x) == Min(n, AtLeast(Scores(all), x));
    }
  }

  // ----- The adapter -----

  /**
   * A connection to one database. The parameter up of a call says whether the server carries it out;
   * a call that is not carried out returns an error and changes nothing.
   */
  class RedisAdapter {
    const address: string
    const database: int
    var vectors: map<string, StoredVector>
    var ids: map<string, map<string, int>>

    constructor (address: string, database: int)
      ensures State() == EMPTY_DB
      ensures this.address == address && this.database == database
    {
      this.address, this.database := address, database;
      vectors, ids := map[], map[];
    }

    function State(): Db
      reads this
    {
      Db(vectors, ids)
    }

    method StoreVector(index: string, v: StoredVector, up: bool) returns (ok: bool)
      modifies this
      ensures ok == up
      ensures State() == if up then Apply(old(State()), Put(index, [v])) else old(State())
    {
      if up {
        vectors, ids := vectors[VectorKey(index, v.id) := v],
          ids[IdsKey(index) := Members(State(), index)[v.id := v.timestamp]];
        assert [v][..0] == [];
        assert StoreAll(old(State()), index, [v][..0]) == old(State());
      }
      ok := up;
    }

    method BatchStoreVectors(index: string, vs: seq<StoredVector>, up: bool) returns (ok: bool)
      modifies this
      ensures ok == up
      ensures State() == if up then Apply(old(State()), Put(index, vs)) else old(State())
    {
      var pipe := State();
      for i := 0 to |vs|
        invariant pipe == StoreAll(old(State()), index, vs[..i])
        invariant State() == old(State())
      {
        pipe := StoreOne(pipe, index, vs[i]);
        assert vs[..i + 1][..i] == vs[..i];
      }
      assert vs[..|vs|] == vs;
      if up {
        vectors, ids := pipe.vectors, pipe.ids;
      }
      ok := up;
    }

    method GetVector(index: string, id: string) returns (r: Option<StoredVector>)
      ensures r == Lookup(State(), index, id)
    {
      var key := VectorKey(index, id);
      if key !in vectors {
        return None;
      }
      return Some(vectors[key]);
    }

    method DeleteVector(index: string, id: string, up: bool) returns (ok: bool)
      modifies this
      ensures ok == up
      ensures State() == if up then Apply(old(State()), Remove(index, id)) else old(State())
    {
      if up {
        ids := WithoutMember(State(), index, id);
        vectors := vectors - {VectorKey(index, id)};
      }
      ok := up;
    }

    method BatchDeleteVectors(index: string, vectorIds: seq<string>, up: bool) returns (deleted: nat, ok: bool)
      modifies this
      ensures ok == up
      ensures deleted == if up then |vectorIds| else 0
      ensures State() == if up then Apply(old(State()), RemoveMany(index, vectorIds)) else old(State())
    {
      var keys: set<string> := {};
      for i := 0 to |vectorIds|
        invariant keys == set id | id in vectorIds[..i] :: VectorKey(index, id)
      {
        keys := keys + {VectorKey(index, vectorIds[i])};
        assert vectorIds[..i + 1] == vectorIds[..i] + [vectorIds[i]];
      }
      assert vectorIds[..|vectorIds|] == vectorIds;
      if !up {
        return 0, false;
      }
      vectors := vectors - keys;
      return |vectorIds|, true;
    }

    method GetVectorCount(index: string) returns (count: nat)
      ensures count == |Members(State(), index)|
    {
      count := |Members(State(), index)|;
    }

    method DropIndex(index: string, up: bool) returns (ok: bool)
      modifies this
      ensures ok == up
      ensures State() == if up then Apply(old(State()), Drop(index)) else old(State())
    {
      if up {
        ids := ids - {IdsKey(index)};
      }
      ok := up;
    }

    method GetAllVectorIds(index: string) returns (listed: seq<string>)
      ensures IsNewestFirst(Members(State(), index), listed)
    {
      var members := Members(State(), index);
      var rest := members.Keys;
      listed := [];
      while rest != {}
        invariant rest <= members.Keys && NoDuplicates(listed)
        invariant forall id :: id in listed <==> id in members && id !in rest
        invariant forall i, j :: 0 <= i < j < |listed| ==> members[listed[i]] >= members[listed[j]]
        invariant forall id, other :: id in listed && other in rest ==> members[id] >= members[other]
        decreases |rest|
      {
        ghost var newest := NewestExists(members, rest);
        var id :| id in rest && forall other :: other in rest ==> members[other] <= members[id];
        listed := listed + [id];
        rest := rest - {id};
      }
    }

    /** The scan: fetch, filter and score every listed id. */
    method CollectHits(q: Query, listed: seq<string>) returns (hits: seq<SearchResult>)
      requires forall id :: id in listed ==> id in Members(State(), q.index)
      ensures hits == HitList(State(), q, HitIds(State(), q, listed))
    {
      hits := [];
      for i := 0 to |listed|
        invariant hits == HitList(State(), q, HitIds(State(), q, listed[..i]))
      {
        var id := listed[i];
        assert listed[..i + 1][..i] == listed[..i] && listed[..i + 1][i] == id;
        var vector := GetVector(q.index, id);
        if vector.Some? {
          var matches := MatchesFilter(q.filter, vector.value.metadata);
          if matches {
            var score := q.distance(q.vector, vector.value.values);
            hits := hits + [SearchResult(vector.value.id, score, vector.value)];
          }
        }
      }
      assert listed[..|listed|] == listed;
    }

    /** The k best hits of this database. */
    method SearchVectors(request: SearchRequest, topK: nat, sqrt: real -> real) returns (results: seq<SearchResult>)
      ensures IsBestOf(results, Hits(State(), CosineQuery(request, sqrt)), topK)
    {
      var listed := GetAllVectorIds(request.index);
      var q := Query(request.index, request.vector, request.filter, GetDistanceFunc("cosine", sqrt));
      var candidates := CollectHits(q, listed);
      results := KeepBest(candidates, topK);
      ghost var ids := HitIds(State(), q, listed);
      HitIdsNoDuplicates(State(), q, listed);
      SameElements(ids, HitOrder(State(), q));
      HitListIgnoresOrder(State(), q, ids, HitOrder(State(), q));
      BestIgnoresOrder(results, candidates, Hits(State(), q), topK);
    }
  }

  method MatchesFilter(filter: map<string, string>, metadata: map<string, string>) returns (matches: bool)
    ensures matches == Matches(filter, metadata)
  {
    var rest := filter.Keys;
    while rest != {}
      invariant rest <= filter.Keys
      invariant forall k :: k in filter && k !in rest ==> MetadataValue(metadata, k) == filter[k]
      decreases |rest|
    {
      var k :| k in rest;
      if MetadataValue(metadata, k) != filter[k] {
        return false;
      }
      rest := rest - {k};
    }
    return true;
  }
}
