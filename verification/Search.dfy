/**
 * Search over all shards (internal/server/vector_service.go) against the specification table: the scores
 * returned are the best ones the table holds, whatever the shards truncated and in whatever order they
 * answered.
 */
module Search {
  import opened Common
  import opened Vectors
  import opened Store
  import opened TopK
  import opened Adapter
  import opened Metrics
  import opened Service
  import opened Refinement

  // ----- The candidates on the responding shards -----

  ghost predicate IsHitAt(st: State, responding: set<int>, q: Query, p: (int, string)) {
    p.0 in responding && p.0 in st.dbs && IsHit(st.dbs[p.0], q, p.1)
  }

  /** origin lists every hit of every responding shard exactly once. */
  ghost predicate IsPool(st: State, responding: set<int>, q: Query, origin: seq<(int, string)>) {
    && NoDuplicates(origin)
    && (forall i :: 0 <= i < |origin| ==> IsHitAt(st, responding, q, origin[i]))
    && (forall p :: IsHitAt(st, responding, q, p) ==> p in origin)
  }

  ghost function HitAt(st: State, responding: set<int>, q: Query, p: (int, string)): SearchResult
    requires IsHitAt(st, responding, q, p)
  {
    HitOf(st.dbs[p.0], q, p.1)
  }

  ghost function Pool(st: State, responding: set<int>, q: Query, origin: seq<(int, string)>): (pool: seq<SearchResult>)
    requires forall i :: 0 <= i < |origin| ==> IsHitAt(st, responding, q, origin[i])
    ensures |pool| == |origin|
    ensures forall i :: 0 <= i < |origin| ==> pool[i] == HitAt(st, responding, q, origin[i])
  {
    seq(|origin|, i requires 0 <= i < |origin| => HitAt(st, responding, q, origin[i]))
  }

  function HitPairSet(st: State, responding: set<int>, q: Query): set<(int, string)> {
    set s, id | s in responding && s in st.dbs && id in Members(st.dbs[s], q.index) && IsHit(st.dbs[s], q, id) ::
      (s, id)
  }

  lemma HitPairSetIs(st: State, responding: set<int>, q: Query, p: (int, string))
    ensures p in HitPairSet(st, responding, q) <==> IsHitAt(st, responding, q, p)
  {
    if IsHitAt(st, responding, q, p) {
      var s, id := p.0, p.1;
      assert id in Members(st.dbs[s], q.index) && IsHit(st.dbs[s], q, id) && p == (s, id);
    }
  }

  ghost function HitPairs(st: State, responding: set<int>, q: Query): (pairs: seq<(int, string)>)
    ensures IsPool(st, responding, q, pairs)
  {
    var pairs := ListOf(HitPairSet(st, responding, q));
    assert IsPool(st, responding, q, pairs) by {
      forall p ensures p in pairs <==> IsHitAt(st, responding, q, p) {
        HitPairSetIs(st, responding, q, p);
      }
      assert forall i :: 0 <= i < |pairs| ==> pairs[i] in pairs;
    }
    pairs
  }

  /** Everything a search should consider on the responding shards: each hit of each shard once. */
  ghost function AllHits(st: State, responding: set<int>, q: Query): seq<SearchResult> {
    Pool(st, responding, q, HitPairs(st, responding, q))
  }

  lemma {:induction false} PoolIgnoresOrder(st: State, responding: set<int>, q: Query, a: seq<(int, string)>,
                                            b: seq<(int, string)>)
    requires multiset(a) == multiset(b)
    requires forall i :: 0 <= i < |a| ==> IsHitAt(st, responding, q, a[i])
    requires forall i :: 0 <= i < |b| ==> IsHitAt(st, responding, q, b[i])
    ensures multiset(Pool(st, responding, q, a)) == multiset(Pool(st, responding, q, b))
  {
    if a == [] {
      assert |multiset(b)| == 0;
    } else {
      var j := MatchFirst(a, b);
      var rest := b[..j] + b[j + 1..];
      var pool := Pool(st, responding, q, b);
      PoolIgnoresOrder(st, responding, q, a[1..], rest);
      assert Pool(st, responding, q, a) == [HitAt(st, responding, q, a[0])] + Pool(st, responding, q, a[1..]);
      assert Pool(st, responding, q, rest) == pool[..j] + pool[j + 1..];
      SplitOff(pool, j);
    }
  }

  /** The candidates of one more shard. */
  function Tagged(s: int, ids: seq<string>): (pairs: seq<(int, string)>)
    ensures |pairs| == |ids| && forall i :: 0 <= i < |ids| ==> pairs[i] == (s, ids[i])
  {
    seq(|ids|, i requires 0 <= i < |ids| => (s, ids[i]))
  }

  lemma PoolExtends(st: State, done: set<int>, q: Query, origin: seq<(int, string)>, s: int, ids: seq<string>)
    requires IsPool(st, done, q, origin) && s !in done && s in st.dbs
    requires NoDuplicates(ids) && forall id :: id in ids <==> IsHit(st.dbs[s], q, id)
    ensures IsPool(st, done + {s}, q, origin + Tagged(s, ids))
    ensures Pool(st, done + {s}, q, origin + Tagged(s, ids)) ==
      Pool(st, done, q, origin) + HitList(st.dbs[s], q, ids)
  {
    var longer := origin + Tagged(s, ids);
    forall i | 0 <= i < |longer| ensures IsHitAt(st, done + {s}, q, longer[i]) {
      if i >= |origin| {
        assert longer[i] == (s, ids[i - |origin|]) && ids[i - |origin|] in ids;
      }
    }
    forall p | IsHitAt(st, done + {s}, q, p) ensures p in longer {
      if p.0 == s {
        var i :| 0 <= i < |ids| && ids[i] == p.1;
        assert Tagged(s, ids)[i] == p;
      }
    }
  }

  /** What has been gathered when the shards in done have answered. */
  ghost predicate Gathered(st: State, done: set<int>, q: Query, k: nat, origin: seq<(int, string)>,
                           arrived: seq<SearchResult>)
  {
    && IsPool(st, done, q, origin)
    && multiset(arrived) <= multiset(Pool(st, done, q, origin))
    && SameTop(Scores(arrived), Scores(Pool(st, done, q, origin)), k)
  }

  lemma NothingGathered(st: State, q: Query, k: nat)
    ensures Gathered(st, {}, q, k, [], [])
  {
  }

  lemma CandidatesJoin(arrived: seq<SearchResult>, pool: seq<SearchResult>, top: seq<SearchResult>,
                       list: seq<SearchResult>)
    requires multiset(arrived) <= multiset(pool) && multiset(top) <= multiset(list)
    ensures multiset(arrived + top) <= multiset(pool + list)
  {
  }

  lemma CountsJoin(arrived: seq<SearchResult>, pool: seq<SearchResult>, top: seq<SearchResult>,
                   list: seq<SearchResult>, k: nat)
    requires SameTop(Scores(arrived), Scores(pool), k) && IsTopK(Scores(top), Scores(list), k)
    ensures SameTop(Scores(arrived + top), Scores(pool + list), k)
  {
    ScoresOfConcat(arrived, top);
    ScoresOfConcat(pool, list);
    SameTopExtends(Scores(arrived), Scores(pool), Scores(top), Scores(list), k);
  }

  /** One more shard's k best arrive. */
  lemma MoreCandidates(st: State, done: set<int>, q: Query, k: nat, origin: seq<(int, string)>,
                       arrived: seq<SearchResult>, s: int, top: seq<SearchResult>)
    requires Gathered(st, done, q, k, origin, arrived) && s !in done && s in st.dbs
    requires IsBestOf(top, Hits(st.dbs[s], q), k)
    ensures Gathered(st, done + {s}, q, k, origin + Tagged(s, HitOrder(st.dbs[s], q)), arrived + top)
  {
    var pool, list := Pool(st, done, q, origin), Hits(st.dbs[s], q);
    PoolExtends(st, done, q, origin, s, HitOrder(st.dbs[s], q));
    CandidatesJoin(arrived, pool, top, list);
    CountsJoin(arrived, pool, top, list, k);
  }

  lemma BestOfGathered(st: State, done: set<int>, q: Query, k: nat, origin: seq<(int, string)>,
                       arrived: seq<SearchResult>, kept: seq<SearchResult>)
    requires Gathered(st, done, q, k, origin, arrived) && IsBestOf(kept, arrived, k)
    ensures IsBestOf(kept, AllHits(st, done, q), k)
  {
    SameTopTransfers(Scores(kept), Scores(arrived), Scores(Pool(st, done, q, origin)), k);
    SameElements(origin, HitPairs(st, done, q));
    PoolIgnoresOrder(st, done, q, origin, HitPairs(st, done, q));
    BestIgnoresOrder(kept, Pool(st, done, q, origin), AllHits(st, done, q), k);
  }

  // ----- Lists without duplicates -----

  function MapScores(f: string -> real, ids: seq<string>): (scores: seq<real>)
    ensures |scores| == |ids| && forall i :: 0 <= i < |ids| ==> scores[i] == f(ids[i])
  {
    seq(|ids|, i requires 0 <= i < |ids| => f(ids[i]))
  }

  lemma {:induction false} MapScoresIgnoreOrder(f: string -> real, a: seq<string>, b: seq<string>, x: real)
    requires multiset(a) == multiset(b)
    ensures AtLeast(MapScores(f, a), x) == AtLeast(MapScores(f, b), x)
  {
    if a == [] {
      assert |multiset(b)| == 0;
    } else {
      var j := MatchFirst(a, b);
      var rest := b[..j] + b[j + 1..];
      MapScoresIgnoreOrder(f, a[1..], rest, x);
      assert MapScores(f, a)[1..] == MapScores(f, a[1..]);
      assert MapScores(f, rest) == MapScores(f, b)[..j] + MapScores(f, b)[j + 1..];
      AtLeastSplit(MapScores(f, b), j, x);
    }
  }

  lemma SameElementsSameCounts(f: string -> real, a: seq<string>, b: seq<string>)
    requires NoDuplicates(a) && NoDuplicates(b) && forall e :: e in a <==> e in b
    ensures |a| == |b| && forall x :: AtLeast(MapScores(f, a), x) == AtLeast(MapScores(f, b), x)
  {
    SameElements(a, b);
    assert |multiset(a)| == |a| && |multiset(b)| == |b|;
    forall x ensures AtLeast(MapScores(f, a), x) == AtLeast(MapScores(f, b), x) {
      MapScoresIgnoreOrder(f, a, b, x);
    }
  }

  // ----- The table's side -----

  /** An entry of the table that the search should consider: right index, filter passed, shard responding. */
  predicate Candidate(table: Table, route: Route, responding: set<int>, q: Query, e: string) {
    && (q.index, e) in table && Matches(q.filter, table[(q.index, e)].metadata)
    && route(e).Some? && route(e).value in responding
  }

  function TableScore(table: Table, q: Query): string -> real {
    e => if (q.index, e) in table then q.distance(q.vector, table[(q.index, e)].values) else 0.0
  }

  function Seconds(origin: seq<(int, string)>): (ids: seq<string>)
    ensures |ids| == |origin| && forall i :: 0 <= i < |origin| ==> ids[i] == origin[i].1
  {
    seq(|origin|, i requires 0 <= i < |origin| => origin[i].1)
  }

  lemma HitIsCandidate(st: State, route: Route, spec: Spec, names: set<string>, responding: set<int>, q: Query,
                       s: int, e: string)
    requires Represents(st, route, spec, names) && q.index in names && responding <= st.dbs.Keys
    ensures IsHitAt(st, responding, q, (s, e)) ==>
      && route(e) == Some(s) && Candidate(spec.table, route, responding, q, e)
      && HitOf(st.dbs[s], q, e).score == TableScore(spec.table, q)(e)
      && HitOf(st.dbs[s], q, e).vector == spec.table[(q.index, e)]
    ensures Candidate(spec.table, route, responding, q, e) && route(e) == Some(s) ==>
      IsHitAt(st, responding, q, (s, e))
  {
    assert Find(spec.table, q.index, e) == VisibleAt(st, route, q.index, e);
    if IsHitAt(st, responding, q, (s, e)) {
      assert e in Members(st.dbs[s], q.index);
    }
  }

  /** The pool's ids are the table's candidates, each once, with the table's scores. */
  lemma PoolIsTable(st: State, route: Route, spec: Spec, names: set<string>, responding: set<int>, q: Query,
                    origin: seq<(int, string)>)
    requires Represents(st, route, spec, names) && q.index in names && responding <= st.dbs.Keys
    requires IsPool(st, responding, q, origin)
    ensures NoDuplicates(Seconds(origin))
    ensures forall e :: e in Seconds(origin) <==> Candidate(spec.table, route, responding, q, e)
    ensures Scores(Pool(st, responding, q, origin)) == MapScores(TableScore(spec.table, q), Seconds(origin))
  {
    forall i | 0 <= i < |origin|
      ensures route(origin[i].1) == Some(origin[i].0) && Candidate(spec.table, route, responding, q, origin[i].1)
      ensures HitOf(st.dbs[origin[i].0], q, origin[i].1).score == TableScore(spec.table, q)(origin[i].1)
    {
      HitIsCandidate(st, route, spec, names, responding, q, origin[i].0, origin[i].1);
    }
    forall e | Candidate(spec.table, route, responding, q, e) ensures e in Seconds(origin) {
      HitIsCandidate(st, route, spec, names, responding, q, route(e).value, e);
      var i :| 0 <= i < |origin| && origin[i] == (route(e).value, e);
      assert Seconds(origin)[i] == e;
    }
  }

  // ----- The minimum-score filter of the response -----

  /** What the response loop keeps: everything when no positive bound is set. */
  function AtLeastMin(results: seq<SearchResult>, minScore: real): seq<SearchResult> {
    if results == [] then []
    else
      var last := results[|results| - 1];
      AtLeastMin(results[..|results| - 1], minScore) +
        if minScore > 0.0 && last.score < minScore then [] else [last]
  }

  function AboveMin(scores: seq<real>, minScore: real): seq<real> {
    if minScore > 0.0 then KeepAtLeast(scores, minScore) else scores
  }

  lemma {:induction false} KeepAtLeastLast(s: seq<real>, x: real, bound: real)
    ensures KeepAtLeast(s + [x], bound) == KeepAtLeast(s, bound) + if x >= bound then [x] else []
  {
    if s == [] {
      assert [x][1..] == [];
    } else {
      assert (s + [x])[1..] == s[1..] + [x];
      KeepAtLeastLast(s[1..], x, bound);
      var first, rest := if s[0] >= bound then [s[0]] else [], KeepAtLeast(s[1..], bound);
      var last := if x >= bound then [x] else [];
      assert KeepAtLeast(s + [x], bound) == first + (rest + last);
      assert KeepAtLeast(s, bound) == first + rest;
      assert first + (rest + last) == (first + rest) + last;
    }
  }

  lemma {:induction false} AtLeastMinScores(results: seq<SearchResult>, minScore: real)
    ensures Scores(AtLeastMin(results, minScore)) == AboveMin(Scores(results), minScore)
    ensures multiset(AtLeastMin(results, minScore)) <= multiset(results)
  {
    if results != [] {
      var init, last := results[..|results| - 1], results[|results| - 1];
      AtLeastMinScores(init, minScore);
      assert results == init + [last];
      MinOfLast(AtLeastMin(init, minScore), init, last, minScore);
    }
  }

  /** One turn of the response loop, on the scores. */
  lemma MinOfLast(kept: seq<SearchResult>, init: seq<SearchResult>, last: SearchResult, minScore: real)
    requires Scores(kept) == AboveMin(Scores(init), minScore)
    ensures Scores(kept + if minScore > 0.0 && last.score < minScore then [] else [last]) ==
      AboveMin(Scores(init + [last]), minScore)
  {
    ScoresOfConcat(kept, [last]);
    ScoresOfConcat(init, [last]);
    assert Scores([last]) == [last.score];
    KeepAtLeastLast(Scores(init), last.score, minScore);
    assert kept + [] == kept;
  }

  /** The response holds genuine hits: the k best of those hits that reach a positive minimum score. */
  ghost predicate IsResponse(results: seq<SearchResult>, all: seq<SearchResult>, k: nat, minScore: real) {
    multiset(results) <= multiset(all) && Scores(results) == Best(AboveMin(Scores(all), minScore), k)
  }

  /** Cutting at k first and filtering by score afterwards is the same as filtering first. */
  lemma ResponseIsExact(kept: seq<SearchResult>, all: seq<SearchResult>, k: nat, minScore: real)
    requires IsBestOf(kept, all, k)
    ensures IsResponse(AtLeastMin(kept, minScore), all, k, minScore)
  {
    AtLeastMinScores(kept, minScore);
    if minScore > 0.0 {
      MinScoreCommutesWithTruncation(Scores(kept), Scores(all), k, minScore);
    } else {
      TopKIsSortThenTruncate(Scores(kept), Scores(all), k);
    }
  }

  lemma BestByCounts(a: seq<real>, b: seq<real>, k: nat)
    requires |a| == |b| && forall x :: AtLeast(a, x) == AtLeast(b, x)
    ensures Best(a, k) == Best(b, k)
  {
    TopKIsSortThenTruncate(Best(a, k), a, k);
    assert IsTopK(Best(a, k), b, k) by {
      forall x ensures AtLeast(Best(a, k), x) == Min(k, AtLeast(b, x)) {
        assert AtLeast(Best(a, k), x) == Min(k, AtLeast(a, x));
      }
    }
    TopKIsSortThenTruncate(Best(a, k), b, k);
  }

  lemma BestAboveMinByCounts(a: seq<real>, b: seq<real>, minScore: real, k: nat)
    requires |a| == |b| && forall x :: AtLeast(a, x) == AtLeast(b, x)
    ensures Best(AboveMin(a, minScore), k) == Best(AboveMin(b, minScore), k)
  {
    if minScore > 0.0 {
      KeepAtLeastCounts(a, minScore, minScore);
      KeepAtLeastCounts(b, minScore, minScore);
      forall x ensures AtLeast(KeepAtLeast(a, minScore), x) == AtLeast(KeepAtLeast(b, minScore), x) {
        KeepAtLeastCounts(a, minScore, x);
        KeepAtLeastCounts(b, minScore, x);
      }
    }
    BestByCounts(AboveMin(a, minScore), AboveMin(b, minScore), k);
  }

  // ----- The response against the table -----

  /**
   * End-to-end search: in every state that represents a table, the scores of a response are the k best of
   * the table's candidate scores that reach the minimum, and every result is a candidate. With every shard
   * responding the candidates are all matching vectors of the index.
   */
  lemma SearchIsExact(st: State, route: Route, spec: Spec, names: set<string>, responding: set<int>, q: Query, k: nat,
                      minScore: real, results: seq<SearchResult>, ids: seq<string>)
    requires Represents(st, route, spec, names) && q.index in names && responding <= st.dbs.Keys
    requires IsResponse(results, AllHits(st, responding, q), k, minScore)
    requires NoDuplicates(ids) && forall e :: e in ids <==> Candidate(spec.table, route, responding, q, e)
    ensures Scores(results) == Best(AboveMin(MapScores(TableScore(spec.table, q), ids), minScore), k)
    ensures forall r :: r in results ==> IsTableResult(spec.table, route, responding, q, r)
  {
    var f, pairs := TableScore(spec.table, q), HitPairs(st, responding, q);
    PoolIsTable(st, route, spec, names, responding, q, pairs);
    SameElementsSameCounts(f, Seconds(pairs), ids);
    BestAboveMinByCounts(Scores(AllHits(st, responding, q)), MapScores(f, ids), minScore, k);
    forall r | r in results ensures IsTableResult(spec.table, route, responding, q, r) {
      assert r in multiset(AllHits(st, responding, q));
      HitIsTableResult(st, route, spec, names, responding, q, r);
    }
  }

  lemma HitIsTableResult(st: State, route: Route, spec: Spec, names: set<string>, responding: set<int>, q: Query,
                         r: SearchResult)
    requires Represents(st, route, spec, names) && q.index in names && responding <= st.dbs.Keys
    requires r in AllHits(st, responding, q)
    ensures IsTableResult(spec.table, route, responding, q, r)
  {
    var pool, pairs := AllHits(st, responding, q), HitPairs(st, responding, q);
    var i :| 0 <= i < |pool| && pool[i] == r;
    HitIsCandidate(st, route, spec, names, responding, q, pairs[i].0, pairs[i].1);
  }

  ghost predicate IsTableResult(table: Table, route: Route, responding: set<int>, q: Query, r: SearchResult) {
    exists e :: Candidate(table, route, responding, q, e) && r.vector == table[(q.index, e)] &&
      r.id == table[(q.index, e)].id && r.score == TableScore(table, q)(e)
  }

  // ----- The response over whole runs, in the request's own terms -----

  /** The entry of the index is on a responding shard, and its metadata has what the filter asks for. */
  predicate Wanted(table: Table, route: Route, responding: set<int>, request: SearchRequest, e: string) {
    && (request.index, e) in table && route(e).Some? && route(e).value in responding
    && var metadata := table[(request.index, e)].metadata;
       forall k :: k in request.filter ==>
         if k in metadata then metadata[k] == request.filter[k] else request.filter[k] == ""
  }

  lemma WantedIsCandidate(table: Table, route: Route, responding: set<int>, request: SearchRequest,
                          sqrt: real -> real, e: string)
    ensures Candidate(table, route, responding, CosineQuery(request, sqrt), e) <==>
      Wanted(table, route, responding, request, e)
  {
  }

  /** One minus the cosine of query and entry. */
  function CosineScore(table: Table, request: SearchRequest, sqrt: real -> real): string -> real {
    e => if (request.index, e) in table then 1.0 - Cosine(request.vector, table[(request.index, e)].values, sqrt)
      else 0.0
  }

  /**
   * In every run from empty stores: the scores of a response are the k best that reach the minimum among
   * one minus the cosine of the query and each wanted entry; and every result is a wanted entry, with the
   * entry's id, its vector, and that score.
   */
  lemma RunSearchIsExact(st: State, route: Route, events: seq<Event>, names: set<string>, responding: set<int>,
                         request: SearchRequest, sqrt: real -> real, k: nat, minScore: real,
                         results: seq<SearchResult>, ids: seq<string>)
    requires SafeNames(names) && UsesNames(events, names) && Initial(st) && ProperRun(st, route, events)
    requires request.index in names && responding <= Run(st, route, events).dbs.Keys
    requires IsResponse(results, AllHits(Run(st, route, events), responding, CosineQuery(request, sqrt)), k, minScore)
    requires NoDuplicates(ids) && var table := SpecRun(SpecOf(st), route, events).table;
      forall e :: e in ids <==> Wanted(table, route, responding, request, e)
    ensures var table := SpecRun(SpecOf(st), route, events).table;
      && Scores(results) == Best(AboveMin(MapScores(CosineScore(table, request, sqrt), ids), minScore), k)
      && forall r :: r in results ==>
           && Wanted(table, route, responding, request, r.id) && r.vector == table[(request.index, r.id)]
           && r.score == 1.0 - Cosine(request.vector, r.vector.values, sqrt)
  {
    var after, spec, q := Run(st, route, events), SpecRun(SpecOf(st), route, events), CosineQuery(request, sqrt);
    RunRefines(st, route, events, names);
    SpecRunNames(SpecOf(st), route, events);
    forall e
      ensures Candidate(spec.table, route, responding, q, e) <==> Wanted(spec.table, route, responding, request, e)
    {
      WantedIsCandidate(spec.table, route, responding, request, sqrt, e);
    }
    SearchIsExact(after, route, spec, names, responding, q, k, minScore, results, ids);
    SameScores(spec.table, request, sqrt, ids);
    forall r | r in results
      ensures Wanted(spec.table, route, responding, request, r.id) && r.vector == spec.table[(request.index, r.id)]
      ensures r.score == 1.0 - Cosine(request.vector, r.vector.values, sqrt)
    {
      ResultIsWanted(spec.table, route, responding, request, sqrt, r);
    }
  }

  lemma SameScores(table: Table, request: SearchRequest, sqrt: real -> real, ids: seq<string>)
    ensures MapScores(TableScore(table, CosineQuery(request, sqrt)), ids) ==
      MapScores(CosineScore(table, request, sqrt), ids)
  {
  }

  lemma ResultIsWanted(table: Table, route: Route, responding: set<int>, request: SearchRequest, sqrt: real -> real,
                       r: SearchResult)
    requires Named(table) && IsTableResult(table, route, responding, CosineQuery(request, sqrt), r)
    ensures Wanted(table, route, responding, request, r.id) && r.vector == table[(request.index, r.id)]
    ensures r.score == 1.0 - Cosine(request.vector, r.vector.values, sqrt)
  {
    var q := CosineQuery(request, sqrt);
    var e :| Candidate(table, route, responding, q, e) && r.vector == table[(q.index, e)] &&
      r.id == table[(q.index, e)].id && r.score == TableScore(table, q)(e);
    WantedIsCandidate(table, route, responding, request, sqrt, e);
  }

  // ----- Which end of the ranking is kept -----

  lemma {:induction false} Listing(m: multiset<SearchResult>) returns (s: seq<SearchResult>)
    ensures multiset(s) == m
    decreases |m|
  {
    s := [];
    if m != multiset{} {
      var r :| r in m;
      var rest := Listing(m - multiset{r});
      s := rest + [r];
      assert m == m - multiset{r} + multiset{r};
    }
  }

  /** No candidate left out of a top-k list scores above one that was kept. */
  lemma DroppedAreNoBetter(kept: seq<SearchResult>, all: seq<SearchResult>, k: nat, r: SearchResult, c: SearchResult)
    requires IsBestOf(kept, all, k) && r in kept && c in multiset(all) - multiset(kept)
    ensures c.score <= r.score
  {
    DroppedIsCounted(kept, all, c);
    if r.score < c.score {
      BelowNotCounted(kept, r, c.score);
    }
  }

  lemma Rejoined<T>(all: multiset<T>, part: multiset<T>)
    requires part <= all
    ensures part + (all - part) == all
  {
  }

  lemma ScoresOfConcat(s: seq<SearchResult>, t: seq<SearchResult>)
    ensures Scores(s + t) == Scores(s) + Scores(t)
  {
  }

  /** A candidate that was left out counts among all candidates but not among the kept. */
  lemma DroppedIsCounted(kept: seq<SearchResult>, all: seq<SearchResult>, c: SearchResult)
    requires multiset(kept) <= multiset(all) && c in multiset(all) - multiset(kept)
    ensures AtLeast(Scores(all), c.score) > AtLeast(Scores(kept), c.score)
  {
    var dropped := multiset(all) - multiset(kept);
    var others := Listing(dropped - multiset{c});
    var rest := [c] + others;
    assert multiset(rest) == dropped;
    Rejoined(multiset(all), multiset(kept));
    ScoreCountsIgnoreOrder(all, kept + rest, c.score);
    ScoresOfConcat(kept, rest);
    AtLeastConcat(Scores(kept), Scores(rest), c.score);
    assert Scores(rest)[0] == c.score;
  }

  lemma {:induction false} BelowNotCounted(kept: seq<SearchResult>, r: SearchResult, x: real)
    requires r in kept && r.score < x
    ensures AtLeast(Scores(kept), x) < |kept|
  {
    assert Scores(kept)[1..] == Scores(kept[1..]);
    if kept[0] != r {
      BelowNotCounted(kept[1..], r, x);
    }
  }

  /** The k best that reach the minimum: again nothing left out scores above something kept. */
  lemma DroppedFromResponse(results: seq<SearchResult>, all: seq<SearchResult>, k: nat, minScore: real,
                            r: SearchResult, c: SearchResult)
    requires IsResponse(results, all, k, minScore) && r in results && c in multiset(all) - multiset(results)
    ensures c.score <= r.score
  {
    var above := AboveMin(Scores(all), minScore);
    TopKIsSortThenTruncate(Scores(results), above, k);
    if r.score < c.score {
      ReachesMinimum(results, all, k, minScore, r);
      DroppedIsCounted(results, all, c);
      BelowNotCounted(results, r, c.score);
      KeepAtLeastCounts(Scores(all), minScore, c.score);
    }
  }

  /** Every result of a response reaches a positive minimum score. */
  lemma ReachesMinimum(results: seq<SearchResult>, all: seq<SearchResult>, k: nat, minScore: real, r: SearchResult)
    requires IsResponse(results, all, k, minScore) && r in results
    ensures minScore > 0.0 ==> r.score >= minScore
  {
    if minScore > 0.0 && r.score < minScore {
      TopKIsSortThenTruncate(Scores(results), AboveMin(Scores(all), minScore), k);
      KeepAtLeastCounts(Scores(all), minScore, minScore);
      BelowNotCounted(results, r, minScore);
    }
  }

  lemma LeftOutSize(kept: seq<SearchResult>, all: seq<SearchResult>)
    requires multiset(kept) <= multiset(all)
    ensures |multiset(all) - multiset(kept)| == |all| - |kept|
  {
    assert multiset(all) == multiset(kept) + (multiset(all) - multiset(kept));
  }

  lemma LeftOut(kept: seq<SearchResult>, all: seq<SearchResult>) returns (c: SearchResult)
    requires multiset(kept) <= multiset(all) && |kept| < |all|
    ensures c in multiset(all) - multiset(kept)
  {
    LeftOutSize(kept, all);
    c :| c in multiset(all) - multiset(kept);
  }

  /** Candidates with the scores the adapter gives them. */
  ghost predicate CosineScored(request: SearchRequest, sqrt: real -> real, all: seq<SearchResult>) {
    forall r :: r in all ==> r.score == 1.0 - Cosine(request.vector, r.vector.values, sqrt)
  }

  lemma HitsScored(db: Db, request: SearchRequest, sqrt: real -> real)
    ensures CosineScored(request, sqrt, Hits(db, CosineQuery(request, sqrt)))
  {
    var all := Hits(db, CosineQuery(request, sqrt));
    forall r | r in all ensures r.score == 1.0 - Cosine(request.vector, r.vector.values, sqrt) {
      var i :| 0 <= i < |all| && all[i] == r;
    }
  }

  lemma AllHitsScored(st: State, responding: set<int>, request: SearchRequest, sqrt: real -> real)
    ensures CosineScored(request, sqrt, AllHits(st, responding, CosineQuery(request, sqrt)))
  {
    var all := AllHits(st, responding, CosineQuery(request, sqrt));
    forall r | r in all ensures r.score == 1.0 - Cosine(request.vector, r.vector.values, sqrt) {
      var i :| 0 <= i < |all| && all[i] == r;
    }
  }

  /** Some candidates are kept, and nothing left out scores above something kept. */
  ghost predicate KeepsLargest(kept: seq<SearchResult>, all: seq<SearchResult>) {
    multiset(kept) <= multiset(all) &&
    forall r, c :: r in kept && c in multiset(all) - multiset(kept) ==> c.score <= r.score
  }

  /** What a nearest-neighbour search should do: nothing left out is more similar than something kept. */
  ghost predicate KeepsTheNearest(request: SearchRequest, sqrt: real -> real, kept: seq<SearchResult>,
                                  all: seq<SearchResult>)
  {
    forall r, c :: r in kept && c in multiset(all) - multiset(kept) ==>
      Cosine(request.vector, r.vector.values, sqrt) >= Cosine(request.vector, c.vector.values, sqrt)
  }

  ghost predicate AllTie(request: SearchRequest, sqrt: real -> real, all: seq<SearchResult>) {
    forall a, b :: a in all && b in all ==>
      Cosine(request.vector, a.vector.values, sqrt) == Cosine(request.vector, b.vector.values, sqrt)
  }

  lemma LargestIsFarthest(request: SearchRequest, sqrt: real -> real, kept: seq<SearchResult>, all: seq<SearchResult>,
                          r: SearchResult, c: SearchResult)
    requires CosineScored(request, sqrt, all) && KeepsLargest(kept, all)
    requires r in kept && c in multiset(all) - multiset(kept)
    ensures Cosine(request.vector, r.vector.values, sqrt) <= Cosine(request.vector, c.vector.values, sqrt)
  {
    assert r in multiset(all) && c in multiset(all);
  }

  /** Keeping the largest cosine distances keeps the most similar only where there is nothing to choose. */
  lemma NearestExactly(request: SearchRequest, sqrt: real -> real, kept: seq<SearchResult>, all: seq<SearchResult>)
    requires CosineScored(request, sqrt, all) && KeepsLargest(kept, all)
    ensures KeepsTheNearest(request, sqrt, kept, all) <==>
      (|kept| == 0 || |kept| == |all| || AllTie(request, sqrt, all))
  {
    LeftOutSize(kept, all);
    if KeepsTheNearest(request, sqrt, kept, all) && 0 < |kept| < |all| {
      var c := LeftOut(kept, all);
      forall a | a in all
        ensures Cosine(request.vector, a.vector.values, sqrt) == Cosine(request.vector, c.vector.values, sqrt)
      {
        TiesWithLeftOut(request, sqrt, kept, all, c, a);
      }
    }
    if AllTie(request, sqrt, all) {
      forall r, c | r in kept && c in multiset(all) - multiset(kept) ensures r in all && c in all {
        assert r in multiset(all) && c in multiset(all);
      }
    }
  }

  lemma TiesWithLeftOut(request: SearchRequest, sqrt: real -> real, kept: seq<SearchResult>, all: seq<SearchResult>,
                        c: SearchResult, a: SearchResult)
    requires CosineScored(request, sqrt, all) && KeepsLargest(kept, all)
    requires KeepsTheNearest(request, sqrt, kept, all) && kept != []
    requires c in multiset(all) - multiset(kept) && a in all
    ensures Cosine(request.vector, a.vector.values, sqrt) == Cosine(request.vector, c.vector.values, sqrt)
  {
    assert a in multiset(all);
    if a in kept {
      LargestIsFarthest(request, sqrt, kept, all, a, c);
    } else {
      LargestIsFarthest(request, sqrt, kept, all, kept[0], a);
      LargestIsFarthest(request, sqrt, kept, all, kept[0], c);
    }
  }

  lemma BestKeepsLargest(kept: seq<SearchResult>, all: seq<SearchResult>, k: nat)
    requires IsBestOf(kept, all, k)
    ensures KeepsLargest(kept, all)
  {
    forall r, c | r in kept && c in multiset(all) - multiset(kept) ensures c.score <= r.score {
      DroppedAreNoBetter(kept, all, k, r, c);
    }
  }

  lemma ResponseKeepsLargest(results: seq<SearchResult>, all: seq<SearchResult>, k: nat, minScore: real)
    requires IsResponse(results, all, k, minScore)
    ensures KeepsLargest(results, all)
  {
    forall r, c | r in results && c in multiset(all) - multiset(results) ensures c.score <= r.score {
      DroppedFromResponse(results, all, k, minScore, r, c);
    }
  }

  /**
   * The adapter scores with the cosine distance and keeps the largest scores: everything a search of a
   * shard returns is at most as similar to the query as everything it leaves out.
   */
  lemma CosineSearchKeepsTheFarthest(db: Db, request: SearchRequest, sqrt: real -> real, k: nat,
                                     kept: seq<SearchResult>, r: SearchResult, c: SearchResult)
    requires var all := Hits(db, CosineQuery(request, sqrt));
      IsBestOf(kept, all, k) && r in kept && c in multiset(all) - multiset(kept)
    ensures Cosine(request.vector, r.vector.values, sqrt) <= Cosine(request.vector, c.vector.values, sqrt)
  {
    var all := Hits(db, CosineQuery(request, sqrt));
    HitsScored(db, request, sqrt);
    BestKeepsLargest(kept, all, k);
    LargestIsFarthest(request, sqrt, kept, all, r, c);
  }

  /** A search keeps the most similar hits only where there is nothing to choose: all are kept, or all tie. */
  lemma NearestOnlyWithoutChoice(db: Db, request: SearchRequest, sqrt: real -> real, k: nat, kept: seq<SearchResult>)
    requires IsBestOf(kept, Hits(db, CosineQuery(request, sqrt)), k)
    ensures var all := Hits(db, CosineQuery(request, sqrt));
      KeepsTheNearest(request, sqrt, kept, all) <==> (k == 0 || |all| <= k || AllTie(request, sqrt, all))
  {
    var all := Hits(db, CosineQuery(request, sqrt));
    HitsScored(db, request, sqrt);
    BestKeepsLargest(kept, all, k);
    NearestExactly(request, sqrt, kept, all);
    assert |kept| == Min(k, |all|);
  }

  /** The same of the service's merged response. */
  lemma ResponseKeepsTheFarthest(st: State, responding: set<int>, request: SearchRequest, sqrt: real -> real, k: nat,
                                 minScore: real, results: seq<SearchResult>, r: SearchResult, c: SearchResult)
    requires var all := AllHits(st, responding, CosineQuery(request, sqrt));
      IsResponse(results, all, k, minScore) && r in results && c in multiset(all) - multiset(results)
    ensures Cosine(request.vector, r.vector.values, sqrt) <= Cosine(request.vector, c.vector.values, sqrt)
  {
    var all := AllHits(st, responding, CosineQuery(request, sqrt));
    AllHitsScored(st, responding, request, sqrt);
    ResponseKeepsLargest(results, all, k, minScore);
    LargestIsFarthest(request, sqrt, results, all, r, c);
  }

  /** The number of candidates that reach the minimum score. */
  ghost function Reaching(all: seq<SearchResult>, minScore: real): nat {
    |AboveMin(Scores(all), minScore)|
  }

  /**
   * A response holds the most similar candidates of the responding shards exactly when it is empty, leaves
   * nothing out, or all candidates tie.
   */
  lemma ResponseNearestOnlyWithoutChoice(st: State, responding: set<int>, request: SearchRequest,
                                         sqrt: real -> real, k: nat, minScore: real, results: seq<SearchResult>)
    requires IsResponse(results, AllHits(st, responding, CosineQuery(request, sqrt)), k, minScore)
    ensures var all := AllHits(st, responding, CosineQuery(request, sqrt));
      var n := Reaching(all, minScore);
      KeepsTheNearest(request, sqrt, results, all) <==>
        (k == 0 || n == 0 || (n == |all| && n <= k) || AllTie(request, sqrt, all))
  {
    var all := AllHits(st, responding, CosineQuery(request, sqrt));
    AllHitsScored(st, responding, request, sqrt);
    ResponseKeepsLargest(results, all, k, minScore);
    NearestExactly(request, sqrt, results, all);
    TopKIsSortThenTruncate(Scores(results), AboveMin(Scores(all), minScore), k);
    assert |results| == Min(k, Reaching(all, minScore));
    KeepAtLeastCounts(Scores(all), minScore, minScore);
  }

  /**
   * A positive minimum score is a maximum similarity: what a response returns has a cosine of at most one
   * minus the minimum, so no stored vector of the query's own direction is ever in it.
   */
  lemma PositiveMinimumDropsMatches(st: State, responding: set<int>, request: SearchRequest, sqrt: real -> real,
                                    k: nat, minScore: real, results: seq<SearchResult>, r: SearchResult)
    requires IsSqrt(sqrt) && minScore > 0.0 && r in results
    requires IsResponse(results, AllHits(st, responding, CosineQuery(request, sqrt)), k, minScore)
    ensures Cosine(request.vector, r.vector.values, sqrt) <= 1.0 - minScore
    ensures !(|request.vector| == |r.vector.values| && !IsZero(request.vector) && !IsZero(r.vector.values) &&
      SameDirection(request.vector, r.vector.values))
  {
    var all := AllHits(st, responding, CosineQuery(request, sqrt));
    AllHitsScored(st, responding, request, sqrt);
    ReachesMinimum(results, all, k, minScore, r);
    assert r in multiset(all);
    CosineDistanceZero(request.vector, r.vector.values, sqrt);
  }

  // ----- One input -----

  const SAME := StoredVector("same", map[], 0, [1.0])
  const OPPOSITE := StoredVector("opposite", map[], 1, [-1.0])
  const TWO_VECTORS := StoreOne(StoreOne(EMPTY_DB, "a", SAME), "a", OPPOSITE)
  const SAME_REQUEST := SearchRequest("a", [1.0], map[])

  lemma UnitCosines(sqrt: real -> real)
    requires IsSqrt(sqrt)
    ensures Cosine([1.0], [1.0], sqrt) == 1.0 && Cosine([1.0], [-1.0], sqrt) == -1.0
  {
    assert Dot([], []) == 0.0;
    assert [1.0][..0] == [] && [-1.0][..0] == [];
    assert Dot([1.0], [1.0]) == 1.0 && Dot([-1.0], [-1.0]) == 1.0 && Dot([1.0], [-1.0]) == -1.0;
    SameSquare(sqrt(1.0), 1.0);
  }

  lemma TwoVectorsHits(q: Query, id: string)
    requires q.index == "a" && q.filter == map[]
    ensures IsHit(TWO_VECTORS, q, id) <==> id == "same" || id == "opposite"
    ensures IsHit(TWO_VECTORS, q, "opposite") && Visible(TWO_VECTORS, "a", "opposite") == Some(OPPOSITE)
    ensures IsHit(TWO_VECTORS, q, "same") && Visible(TWO_VECTORS, "a", "same") == Some(SAME)
  {
    var one := StoreOne(EMPTY_DB, "a", SAME);
    assert Members(one, "a") == map["same" := 0];
    assert Members(TWO_VECTORS, "a") == map["same" := 0, "opposite" := 1];
    if VectorKey("a", "same") == VectorKey("a", "opposite") {
      VectorKeyInjective("a", "same", "a", "opposite");
    }
  }

  const SAME_RESULT := SearchResult("same", 0.0, SAME)
  const OPPOSITE_RESULT := SearchResult("opposite", 2.0, OPPOSITE)

  /** Both vectors are candidates: the same one with distance 0, the opposite one with distance 2. */
  lemma TwoVectorsAll(sqrt: real -> real)
    requires IsSqrt(sqrt)
    ensures var all := Hits(TWO_VECTORS, CosineQuery(SAME_REQUEST, sqrt));
      OPPOSITE_RESULT in all && forall r :: r in all ==> r == SAME_RESULT || r == OPPOSITE_RESULT
  {
    var q := CosineQuery(SAME_REQUEST, sqrt);
    var ids, all := HitOrder(TWO_VECTORS, q), Hits(TWO_VECTORS, q);
    UnitCosines(sqrt);
    TwoVectorsHits(q, "opposite");
    assert HitOf(TWO_VECTORS, q, "same") == SAME_RESULT && HitOf(TWO_VECTORS, q, "opposite") == OPPOSITE_RESULT;
    var j :| 0 <= j < |ids| && ids[j] == "opposite";
    assert all[j] == OPPOSITE_RESULT;
    forall i | 0 <= i < |all| ensures all[i] == SAME_RESULT || all[i] == OPPOSITE_RESULT {
      TwoVectorsHits(q, ids[i]);
      assert ids[i] in ids;
    }
  }

  /** Of these candidates the opposite vector has the largest score. */
  lemma OppositeIsBest(kept: seq<SearchResult>, all: seq<SearchResult>)
    requires IsBestOf(kept, all, 1) && OPPOSITE_RESULT in all
    requires forall r :: r in all ==> r == SAME_RESULT || r == OPPOSITE_RESULT
    ensures kept == [OPPOSITE_RESULT]
  {
    var j :| 0 <= j < |all| && all[j] == OPPOSITE_RESULT;
    AtLeastOne(Scores(all), j, 2.0);
    assert AtLeast(Scores(kept), 2.0) == 1;
    var i := AtLeastWitness(Scores(kept), 2.0);
    assert |kept| == 1 && i == 0;
    assert kept[0] in multiset(all);
    assert kept[0] in all;
    assert SAME_RESULT.score < 2.0;
    assert kept[0] == OPPOSITE_RESULT;
  }

  /** Asked for the one best match of a stored vector, the search returns the opposite vector instead. */
  lemma ExactMatchIsLeftOut(sqrt: real -> real, kept: seq<SearchResult>)
    requires IsSqrt(sqrt) && IsBestOf(kept, Hits(TWO_VECTORS, CosineQuery(SAME_REQUEST, sqrt)), 1)
    ensures kept == [OPPOSITE_RESULT]
  {
    TwoVectorsAll(sqrt);
    OppositeIsBest(kept, Hits(TWO_VECTORS, CosineQuery(SAME_REQUEST, sqrt)));
  }

  lemma {:induction false} AtLeastOne(s: seq<real>, j: nat, x: real)
    requires j < |s| && s[j] >= x
    ensures AtLeast(s, x) > 0
  {
    if j > 0 {
      AtLeastOne(s[1..], j - 1, x);
    }
  }
}
