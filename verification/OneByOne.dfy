/** A batch insert leaves the same shard and replica stores as inserting its items one by one. */
module OneByOne {
  import opened Common
  import opened Vectors
  import opened Store
  import opened Service
  import opened Refinement
  import opened Coverage
  import opened Batch
  import R = Replication

  /** One Insert request per item, in order, each at its own time, with the same calls refused. */
  function InsertItems(st: State, route: Route, index: string, items: seq<Item>, env: Env): State {
    if items == [] then st
    else
      var item := items[|items| - 1];
      Step(InsertItems(st, route, index, items[..|items| - 1], env), route,
        Request.Insert(index, item.id, item.metadata, item.values), env.(now := item.time))
  }

  /** The same for vectors. */
  function InsertAll(st: State, route: Route, index: string, vs: seq<StoredVector>, env: Env): State {
    if vs == [] then st
    else
      var v := vs[|vs| - 1];
      Step(InsertAll(st, route, index, vs[..|vs| - 1], env), route,
        Request.Insert(index, v.id, v.metadata, v.values), env.(now := v.timestamp))
  }

  lemma {:induction false} InsertAllKeepsIndexes(
      st: State, route: Route, index: string, vs: seq<StoredVector>, env: Env)
    ensures InsertAll(st, route, index, vs, env).indexes == st.indexes
  {
    if vs != [] {
      InsertAllKeepsIndexes(st, route, index, vs[..|vs| - 1], env);
    }
  }

  /** Items of another dimension are refused, the others arrive as the vectors of the batch. */
  lemma {:induction false} InsertItemsIs(st: State, route: Route, index: string, items: seq<Item>, env: Env)
    requires index in st.indexes
    ensures InsertItems(st, route, index, items, env) ==
      InsertAll(st, route, index, Fitting(items, st.indexes[index].dimension), env)
  {
    if items != [] {
      var init, item := items[..|items| - 1], items[|items| - 1];
      var vs := Fitting(init, st.indexes[index].dimension);
      InsertItemsIs(st, route, index, init, env);
      InsertAllKeepsIndexes(st, route, index, vs, env);
      if |item.values| == st.indexes[index].dimension {
        assert (vs + [Stamped(item)])[..|vs + [Stamped(item)]| - 1] == vs;
      } else {
        assert vs + [] == vs;
      }
    }
  }

  ghost predicate AllFit(st: State, index: string, vs: seq<StoredVector>) {
    index in st.indexes && forall v :: v in vs ==> |v.values| == st.indexes[index].dimension > 0
  }

  /** The same replicas with the same roles; those at answering addresses have kept their status. */
  ghost predicate SameAnswering(list: seq<R.Replica>, after: seq<R.Replica>, refuse: set<string>) {
    |after| == |list| &&
    forall k :: 0 <= k < |list| ==>
      && after[k].address == list[k].address && after[k].role == list[k].role
      && (list[k].address !in refuse ==> after[k].status == list[k].status)
  }

  lemma ReceivesTheSame(list: seq<R.Replica>, after: seq<R.Replica>, a: string, refuse: set<string>)
    requires SameAnswering(list, after, refuse)
    ensures Receives(list, |list|, a, refuse) <==> Receives(after, |after|, a, refuse)
  {
  }

  /** The accepting shards that have an active secondary answering at the address. */
  ghost function Answered(st: State, env: Env, address: string): set<int> {
    set s | s in st.repl.replicas && Accepts(st, s, env) &&
      Receives(st.repl.replicas[s], |st.repl.replicas[s]|, address, env.replicaRefuse(s))
  }

  /** What inserting the vectors one by one has done to the replicas. */
  ghost predicate ReplSoFar(st: State, mid: State, route: Route, index: string, vs: seq<StoredVector>, env: Env) {
    && mid.repl.replicas.Keys == st.repl.replicas.Keys
    && (forall s :: s in st.repl.replicas ==>
          SameAnswering(st.repl.replicas[s], mid.repl.replicas[s], env.replicaRefuse(s)))
    && mid.repl.stores.Keys == st.repl.stores.Keys
    && (forall a :: a in st.repl.stores ==>
          (mid.repl.stores[a] == Merge(st.repl.stores[a], index, Part(vs, route, Answered(st, env, a)))))
  }

  ghost predicate DbsSoFar(st: State, mid: State, route: Route, index: string, vs: seq<StoredVector>, env: Env) {
    && mid.active == st.active && mid.indexes == st.indexes && mid.dbs.Keys == st.dbs.Keys
    && forall s :: s in st.dbs ==>
         (mid.dbs[s] == if Accepts(st, s, env) then StoreAll(st.dbs[s], index, Group(vs, route, s)) else st.dbs[s])
  }

  lemma MergeOne(db: Db, index: string, vs: seq<StoredVector>, route: Route, shards: set<int>)
    requires vs != []
    ensures var init, last := vs[..|vs| - 1], vs[|vs| - 1];
      Merge(db, index, Part(vs, route, shards)) ==
        if route(last.id).Some? && route(last.id).value in shards
        then Apply(Merge(db, index, Part(init, route, shards)), Put(index, [last]))
        else Merge(db, index, Part(init, route, shards))
  {
    var init, last := vs[..|vs| - 1], vs[|vs| - 1];
    PartExtends(vs, route, shards);
    SingleStore(Merge(db, index, Part(init, route, shards)), index, last);
    StoreOneMerges(db, index, Part(init, route, shards), last);
  }

  lemma InsertGoesToRepl(st: State, mid: State, route: Route, index: string, vs: seq<StoredVector>, env: Env)
    requires vs != [] && ReplSoFar(st, mid, route, index, vs[..|vs| - 1], env) && AddressesUnique(st.repl)
    requires route(vs[|vs| - 1].id).Some? && Accepts(st, route(vs[|vs| - 1].id).value, env)
    ensures var last := vs[|vs| - 1];
      ReplSoFar(st, Commit(mid, route(last.id).value, R.Insert(index, last), env.(now := last.timestamp)), route,
        index, vs, env)
  {
    var last := vs[|vs| - 1];
    var s: int := route(last.id).value;
    var cmd, refuse := R.Insert(index, last), env.replicaRefuse(s);
    var after := Commit(mid, s, cmd, env.(now := last.timestamp));
    if s in st.repl.replicas {
      var list := mid.repl.replicas[s];
      assert SameAnswering(st.repl.replicas[s], list, refuse);
      SameAddressesUnique(st.repl.replicas[s], list);
      FanOutDelivers(mid.repl, s, |list|, cmd, refuse, last.timestamp);
      assert SameAnswering(st.repl.replicas[s], after.repl.replicas[s], refuse);
    }
    forall a | a in st.repl.stores
      ensures after.repl.stores[a] == Merge(st.repl.stores[a], index, Part(vs, route, Answered(st, env, a)))
    {
      MergeOne(st.repl.stores[a], index, vs, route, Answered(st, env, a));
      if s in st.repl.replicas {
        ReceivesTheSame(st.repl.replicas[s], mid.repl.replicas[s], a, refuse);
      }
    }
  }

  lemma SkippedRepl(st: State, mid: State, route: Route, index: string, vs: seq<StoredVector>, env: Env)
    requires vs != [] && ReplSoFar(st, mid, route, index, vs[..|vs| - 1], env)
    requires route(vs[|vs| - 1].id).None? || !Accepts(st, route(vs[|vs| - 1].id).value, env)
    ensures ReplSoFar(st, mid, route, index, vs, env)
  {
    forall a | a in st.repl.stores
      ensures mid.repl.stores[a] == Merge(st.repl.stores[a], index, Part(vs, route, Answered(st, env, a)))
    {
      MergeOne(st.repl.stores[a], index, vs, route, Answered(st, env, a));
    }
  }

  lemma StoreLast(db: Db, index: string, group: seq<StoredVector>, v: StoredVector)
    ensures StoreAll(db, index, group + [v]) == Apply(StoreAll(db, index, group), Put(index, [v]))
  {
    SingleStore(StoreAll(db, index, group), index, v);
    assert (group + [v])[..|group + [v]| - 1] == group;
  }

  lemma InsertGoesToDbs(st: State, mid: State, after: State, route: Route, index: string, vs: seq<StoredVector>,
                        env: Env)
    requires vs != [] && DbsSoFar(st, mid, route, index, vs[..|vs| - 1], env)
    requires var s := route(vs[|vs| - 1].id);
      after.active == mid.active && after.indexes == mid.indexes &&
      after.dbs == if s.Some? && Accepts(st, s.value, env) then WriteAt(mid, s.value, Put(index, [vs[|vs| - 1]])).dbs
        else mid.dbs
    ensures DbsSoFar(st, after, route, index, vs, env)
  {
    var init, last := vs[..|vs| - 1], vs[|vs| - 1];
    forall s | s in st.dbs && Accepts(st, s, env)
      ensures after.dbs[s] == StoreAll(st.dbs[s], index, Group(vs, route, s))
    {
      var g := Group(init, route, s);
      StoreLast(st.dbs[s], index, g, last);
      assert g + [] == g;
    }
  }

  lemma {:induction false} InsertAllSoFar(st: State, route: Route, index: string, vs: seq<StoredVector>, env: Env)
    requires AllFit(st, index, vs) && AddressesUnique(st.repl)
    ensures DbsSoFar(st, InsertAll(st, route, index, vs, env), route, index, vs, env)
    ensures ReplSoFar(st, InsertAll(st, route, index, vs, env), route, index, vs, env)
  {
    if vs == [] {
      forall a | a in st.repl.stores
        ensures Merge(st.repl.stores[a], index, Part(vs, route, Answered(st, env, a))) == st.repl.stores[a]
      {
        assert Part(vs, route, Answered(st, env, a)) == map[];
      }
    } else {
      var init, last := vs[..|vs| - 1], vs[|vs| - 1];
      assert vs == init + [last];
      InsertAllSoFar(st, route, index, init, env);
      InsertNext(st, InsertAll(st, route, index, init, env), route, index, vs, env);
    }
  }

  lemma InsertNext(st: State, mid: State, route: Route, index: string, vs: seq<StoredVector>, env: Env)
    requires vs != [] && AllFit(st, index, vs) && AddressesUnique(st.repl)
    requires DbsSoFar(st, mid, route, index, vs[..|vs| - 1], env)
    requires ReplSoFar(st, mid, route, index, vs[..|vs| - 1], env)
    ensures var v := vs[|vs| - 1];
      var after := Step(mid, route, Request.Insert(index, v.id, v.metadata, v.values), env.(now := v.timestamp));
      DbsSoFar(st, after, route, index, vs, env) && ReplSoFar(st, after, route, index, vs, env)
  {
    var v := vs[|vs| - 1];
    assert v in vs;
    var after := Step(mid, route, Request.Insert(index, v.id, v.metadata, v.values), env.(now := v.timestamp));
    InsertGoesToDbs(st, mid, after, route, index, vs, env);
    if route(v.id).Some? && Accepts(st, route(v.id).value, env) {
      InsertGoesToRepl(st, mid, route, index, vs, env);
    } else {
      SkippedRepl(st, mid, route, index, vs, env);
    }
  }

  /**
   * For any shard order and any refused shards and replicas, the batch leaves every shard database and
   * every replica store as inserting its items one by one in request order does: each item's id, metadata,
   * values and time; items of another dimension are refused, and of items with one id the last wins.
   */
  lemma BatchEqualsOneByOne(st: State, route: Route, index: string, items: seq<Item>, order: seq<int>, env: Env)
    requires index in st.indexes && st.indexes[index].dimension > 0 && AddressesUnique(st.repl)
    requires ProperOrder(st, route, Request.BatchInsert(index, items, order))
    ensures var batch := Step(st, route, Request.BatchInsert(index, items, order), env);
      var single := InsertItems(st, route, index, items, env);
      batch.dbs == single.dbs && batch.repl.stores == single.repl.stores
  {
    InsertItemsIs(st, route, index, items, env);
    FittingOneByOne(st, route, index, items, order, env);
  }

  lemma FittingOneByOne(st: State, route: Route, index: string, items: seq<Item>, order: seq<int>, env: Env)
    requires index in st.indexes && st.indexes[index].dimension > 0 && AddressesUnique(st.repl)
    requires ProperOrder(st, route, Request.BatchInsert(index, items, order))
    ensures var batch := Step(st, route, Request.BatchInsert(index, items, order), env);
      var single := InsertAll(st, route, index, Fitting(items, st.indexes[index].dimension), env);
      batch.dbs == single.dbs && batch.repl.stores == single.repl.stores
  {
    var dimension := st.indexes[index].dimension;
    var vs := Fitting(items, dimension);
    forall v | v in vs ensures |v.values| == dimension {
      FittingFits(items, dimension, v);
    }
    VectorsOneByOne(st, Job(index, vs, route, env), order);
  }

  /** The vectors of a batch over any order of the shards, and one by one. */
  lemma VectorsOneByOne(st: State, job: Job, order: seq<int>)
    requires AllFit(st, job.index, job.vs) && AddressesUnique(st.repl)
    requires NoDuplicates(order) && ElementsOf(order) == Targets(Ids(job.vs), job.route)
    ensures var batch := CommitAll(st, order, CommandOf(job), job.env);
      var single := InsertAll(st, job.route, job.index, job.vs, job.env);
      batch.dbs == single.dbs && batch.repl.stores == single.repl.stores
  {
    var batch := CommitAll(st, order, CommandOf(job), job.env);
    var single := InsertAll(st, job.route, job.index, job.vs, job.env);
    InsertAllSoFar(st, job.route, job.index, job.vs, job.env);
    CommitAllProgress(st, job, order);
    SameDbs(st, batch, single, job, order);
    forall a | a in st.repl.stores ensures batch.repl.stores[a] == single.repl.stores[a] {
      SamePart(st, job, order, a);
    }
  }

  lemma SameDbs(st: State, batch: State, single: State, job: Job, order: seq<int>)
    requires ElementsOf(order) == Targets(Ids(job.vs), job.route)
    requires DbsProgress(st, batch, job, AcceptedIn(st, order, job.env))
    requires DbsSoFar(st, single, job.route, job.index, job.vs, job.env)
    ensures batch.dbs == single.dbs
  {
    forall s | s in st.dbs ensures batch.dbs[s] == single.dbs[s] {
      if s !in order {
        GroupEmpty(job.vs, job.route, s, order);
      }
    }
  }

  lemma TargetsCover(vs: seq<StoredVector>, route: Route, v: StoredVector, s: int)
    ensures v in vs && route(v.id) == Some(s) ==> s in Targets(Ids(vs), route)
  {
  }

  lemma GroupEmpty(vs: seq<StoredVector>, route: Route, s: int, order: seq<int>)
    requires ElementsOf(order) == Targets(Ids(vs), route) && s !in order
    ensures Group(vs, route, s) == []
  {
    var g := Group(vs, route, s);
    if g != [] {
      var v := g[0];
      GroupRouted(vs, route, s, v);
      TargetsCover(vs, route, v, s);
    }
  }

  lemma SamePart(st: State, job: Job, order: seq<int>, a: string)
    requires ElementsOf(order) == Targets(Ids(job.vs), job.route)
    ensures var refuse := job.env.replicaRefuse;
      Part(job.vs, job.route, Arrived(st.repl, ReplicaPairs(st.repl, AcceptedIn(st, order, job.env)), a, refuse)) ==
      Part(job.vs, job.route, Answered(st, job.env, a))
  {
    var refuse := job.env.replicaRefuse;
    var arrived := Arrived(st.repl, ReplicaPairs(st.repl, AcceptedIn(st, order, job.env)), a, refuse);
    forall e | e in LastMap(job.vs) && job.route(e).Some?
      ensures job.route(e).value in arrived <==> job.route(e).value in Answered(st, job.env, a)
    {
      LastMapKeys(job.vs, e);
      var i :| 0 <= i < |job.vs| && job.vs[i].id == e;
      assert Ids(job.vs)[i] == e;
      var s: int := job.route(e).value;
      assert s in ElementsOf(order);
      ArrivedIs(st, order, job.env, a, s);
    }
  }

  lemma ArrivedIs(st: State, order: seq<int>, env: Env, a: string, s: int)
    requires s in order
    ensures s in Arrived(st.repl, ReplicaPairs(st.repl, AcceptedIn(st, order, env)), a, env.replicaRefuse) <==>
      s in Answered(st, env, a)
  {
  }

  lemma {:induction false} LastMapKeys(vs: seq<StoredVector>, e: string)
    requires e in LastMap(vs)
    ensures exists i :: 0 <= i < |vs| && vs[i].id == e
  {
    var init, last := vs[..|vs| - 1], vs[|vs| - 1];
    if e == last.id {
      assert vs[|vs| - 1].id == e;
    } else {
      LastMapKeys(init, e);
      var i :| 0 <= i < |init| && init[i].id == e;
      assert vs[i].id == e;
    }
  }
}
