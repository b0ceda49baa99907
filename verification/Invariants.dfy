/** What the refinement gives: dimensions, counts against contents, and what Get returns. */
module Invariants {
  import opened Common
  import opened Vectors
  import opened Store
  import opened Service
  import opened Refinement

  // ----- Index creation -----

  /**
   * A creation goes through exactly for a new name with at least one dimension and one shard, no negative
   * replica count, and one of the three metrics; then the definition is the name's, and nothing else changes.
   */
  lemma CreationGoesThrough(st: State, route: Route, index: string, d: VectorIndex, env: Env)
    ensures var after := Step(st, route, CreateIndex(index, d), env);
      var accepted := index !in st.indexes && d.dimension >= 1 && d.shardCount >= 1 && d.replicaCount >= 0 &&
        (d.metric == "cosine" || d.metric == "euclidean" || d.metric == "dot_product");
      && (after != st <==> accepted)
      && after == st.(indexes := after.indexes)
      && (accepted ==> after.indexes == st.indexes[index := d])
  {
    assert index !in st.indexes ==> st.indexes[index := d] != st.indexes;
  }

  // ----- Dimensions -----

  /** Every visible vector of an existing index has that index's dimension. */
  ghost predicate DimensionsHold(st: State, names: set<string>) {
    forall s, i, e :: s in st.dbs && i in names && i in st.indexes && Visible(st.dbs[s], i, e).Some? ==>
      |Visible(st.dbs[s], i, e).value.values| == st.indexes[i].dimension
  }

  ghost predicate TableDimensionsHold(spec: Spec, names: set<string>) {
    forall k :: k in spec.table && k.0 in names && k.0 in spec.indexes ==>
      |spec.table[k].values| == spec.indexes[k.0].dimension
  }

  /** No shard shows a vector under the name that has another dimension. */
  ghost predicate ShowsOnly(st: State, index: string, dimension: int) {
    forall s, e :: s in st.dbs && Visible(st.dbs[s], index, e).Some? ==>
      |Visible(st.dbs[s], index, e).value.values| == dimension
  }

  /** What a creation that goes through must find: leftovers of its own dimension only. */
  ghost predicate CreationFits(st: State, req: Request) {
    req.CreateIndex? && req.index !in st.indexes && req.definition.Validates() ==>
      ShowsOnly(st, req.index, req.definition.dimension)
  }

  /** What a shard shows is in the table, and the table's entries are shown by their shards. */
  lemma ShownIsTabled(st: State, route: Route, spec: Spec, names: set<string>, s: int, i: string, e: string)
    requires Represents(st, route, spec, names) && i in names && s in st.dbs
    ensures Visible(st.dbs[s], i, e).Some? ==>
      (i, e) in spec.table && spec.table[(i, e)] == Visible(st.dbs[s], i, e).value
  {
    if Visible(st.dbs[s], i, e).Some? {
      assert e in Members(st.dbs[s], i);
      assert Find(spec.table, i, e) == VisibleAt(st, route, i, e);
    }
  }

  lemma TabledIsShown(st: State, route: Route, spec: Spec, names: set<string>, k: (string, string)) returns (s: int)
    requires Represents(st, route, spec, names) && k.0 in names && k in spec.table
    ensures s in st.dbs && Visible(st.dbs[s], k.0, k.1) == Some(spec.table[k])
  {
    assert k == (k.0, k.1);
    assert Find(spec.table, k.0, k.1) == VisibleAt(st, route, k.0, k.1);
    s := route(k.1).value;
  }

  lemma DimensionsOfTable(st: State, route: Route, spec: Spec, names: set<string>)
    requires Represents(st, route, spec, names)
    ensures DimensionsHold(st, names) <==> TableDimensionsHold(spec, names)
  {
    if DimensionsHold(st, names) {
      forall k | k in spec.table && k.0 in names && k.0 in spec.indexes
        ensures |spec.table[k].values| == spec.indexes[k.0].dimension
      {
        var s := TabledIsShown(st, route, spec, names, k);
      }
    }
    if TableDimensionsHold(spec, names) {
      forall s, i, e | s in st.dbs && i in names && i in st.indexes && Visible(st.dbs[s], i, e).Some?
        ensures |Visible(st.dbs[s], i, e).value.values| == st.indexes[i].dimension
      {
        ShownIsTabled(st, route, spec, names, s, i, e);
      }
    }
  }

  /** No request but CreateIndex can break the dimensions; in particular no drop can, refused or not. */
  lemma OnlyCreationBreaks(spec: Spec, route: Route, req: Request, env: Env, names: set<string>)
    requires TableDimensionsHold(spec, names) && !req.CreateIndex?
    ensures TableDimensionsHold(SpecStep(spec, route, req, env), names)
  {
    if req.BatchInsert? && req.index in spec.indexes {
      var vs := Fitting(req.items, spec.indexes[req.index].dimension);
      var served := Served(vs, spec, route, env.refuse);
      var after := SpecStep(spec, route, req, env);
      PutItemsIs(spec.table, spec, route, req.index, req.items, env.refuse);
      forall k | k in after.table && k.0 in names && k.0 in after.indexes
        ensures |after.table[k].values| == after.indexes[k.0].dimension
      {
        PutOneByOneKeys(spec.table, req.index, served, k);
        if after.table[k] in served {
          ServedServes(vs, spec, route, env.refuse, after.table[k]);
          FittingFits(req.items, spec.indexes[req.index].dimension, after.table[k]);
        }
      }
    }
  }

  /** A creation keeps the dimensions exactly when the leftovers it finds have the new dimension. */
  lemma CreationKeepsDimensions(st: State, route: Route, spec: Spec, names: set<string>, req: Request, env: Env)
    requires Represents(st, route, spec, names) && DimensionsHold(st, names)
    requires req.CreateIndex? && req.index in names
    ensures DimensionsHold(Step(st, route, req, env), names) <==> CreationFits(st, req)
  {
  }

  /** Every request keeps the dimensions, but for a creation that finds leftovers of another dimension. */
  lemma StepKeepsDimensions(st: State, route: Route, spec: Spec, names: set<string>, req: Request, env: Env)
    requires SafeNames(names) && req.index in names && ProperOrder(st, route, req)
    requires Represents(st, route, spec, names) && DimensionsHold(st, names)
    ensures DimensionsHold(Step(st, route, req, env), names) <==> CreationFits(st, req)
  {
    if req.CreateIndex? {
      CreationKeepsDimensions(st, route, spec, names, req, env);
    } else {
      StepRefines(st, route, spec, names, req, env);
      DimensionsOfTable(st, route, spec, names);
      OnlyCreationBreaks(spec, route, req, env, names);
      DimensionsOfTable(Step(st, route, req, env), route, SpecStep(spec, route, req, env), names);
    }
  }

  ghost predicate DimensionsHoldThroughout(st: State, route: Route, events: seq<Event>, names: set<string>) {
    DimensionsHold(Run(st, route, events), names) &&
    (events != [] ==> DimensionsHoldThroughout(st, route, events[..|events| - 1], names))
  }

  ghost predicate CreationsFit(st: State, route: Route, events: seq<Event>) {
    events == [] ||
    (CreationsFit(st, route, events[..|events| - 1]) &&
     (events[|events| - 1].Serve? ==>
        CreationFits(Run(st, route, events[..|events| - 1]), events[|events| - 1].req)))
  }

  /**
   * A run keeps the dimensions in all its states exactly when every creation in it finds leftovers of its
   * own dimension only.
   */
  lemma {:induction false} DimensionsHoldExactly(st: State, route: Route, events: seq<Event>, names: set<string>)
    requires SafeNames(names) && UsesNames(events, names) && Initial(st) && ProperRun(st, route, events)
    ensures DimensionsHoldThroughout(st, route, events, names) <==> CreationsFit(st, route, events)
  {
    if events != [] {
      var init, last := events[..|events| - 1], events[|events| - 1];
      DimensionsHoldExactly(st, route, init, names);
      RunRefines(st, route, init, names);
      if DimensionsHoldThroughout(st, route, init, names) && last.Serve? {
        StepKeepsDimensions(Run(st, route, init), route, SpecRun(SpecOf(st), route, init), names, last.req, last.env);
      }
    }
  }

  const TWO_DIMENSIONS := ONE_DIMENSION.(dimension := 2)
  const SAMPLE := StoredVector("x", map[], 0, [1.0])

  /** Index "a" of dimension 1, a vector, a drop the shard refuses, and "a" again with dimension 2. */
  function RecreatedAfterRefusedDrop(): seq<Event> {
    FilledIndex() + [Serve(Request.DropIndex("a"), CALM.(refuse := {0}))] +
      [Serve(CreateIndex("a", TWO_DIMENSIONS), CALM)]
  }

  function FilledIndex(): seq<Event> {
    [] + [Serve(CreateIndex("a", ONE_DIMENSION), CALM)] + [Serve(Request.Insert("a", "x", map[], [1.0]), CALM)]
  }

  lemma FilledIndexRun(st: State, route: Route)
    requires route("x") == Some(0) && st.dbs == map[0 := EMPTY_DB] && st.active == {0} && st.indexes == map[]
    ensures ProperRun(st, route, FilledIndex())
    ensures Run(st, route, FilledIndex()) ==
      Commit(st.(indexes := map["a" := ONE_DIMENSION]), 0, Service.R.Insert("a", SAMPLE), CALM)
  {
    RunExtends(st, route, SpecOf(st), [], CreateIndex("a", ONE_DIMENSION), CALM);
    var created := [] + [Serve(CreateIndex("a", ONE_DIMENSION), CALM)];
    RunExtends(st, route, SpecOf(st), created, Request.Insert("a", "x", map[], [1.0]), CALM);
    assert Run(st, route, created) == st.(indexes := map["a" := ONE_DIMENSION]);
  }

  /** A run from empty stores that ends with a vector of one component in an index of dimension two. */
  lemma RefusedDropBreaksDimensions(route: Route)
    requires route("x") == Some(0)
    ensures Initial(ONE_SHARD) && ProperRun(ONE_SHARD, route, RecreatedAfterRefusedDrop())
    ensures var after := Run(ONE_SHARD, route, RecreatedAfterRefusedDrop());
      && 0 in after.dbs && "a" in after.indexes && after.indexes["a"].dimension == 2
      && Visible(after.dbs[0], "a", "x") == Some(SAMPLE)
      && !DimensionsHold(after, {"a"})
  {
    var st, spec := ONE_SHARD, SpecOf(ONE_SHARD);
    FilledIndexRun(st, route);
    var filled := Run(st, route, FilledIndex());
    SingleStore(EMPTY_DB, "a", SAMPLE);
    assert Visible(filled.dbs[0], "a", "x") == Some(SAMPLE);
    var drop := Request.DropIndex("a");
    var refusing := CALM.(refuse := {0});
    RunExtends(st, route, spec, FilledIndex(), drop, refusing);
    var dropped := FilledIndex() + [Serve(drop, refusing)];
    assert Run(st, route, dropped).dbs[0] == filled.dbs[0];
    RunExtends(st, route, spec, dropped, CreateIndex("a", TWO_DIMENSIONS), CALM);
    var after := Run(st, route, RecreatedAfterRefusedDrop());
    assert after.dbs[0] == filled.dbs[0];
    assert |SAMPLE.values| == 1;
  }

  // ----- Complete drops -----

  /** Every visible vector belongs to an existing index and has its dimension. */
  ghost predicate TableFits(spec: Spec) {
    forall k :: k in spec.table ==>
      k.0 in spec.indexes && |spec.table[k].values| == spec.indexes[k.0].dimension
  }

  ghost predicate TablePlaced(spec: Spec, route: Route) {
    forall k :: k in spec.table ==> route(k.1).Some? && route(k.1).value in spec.shards
  }

  lemma {:induction false} PutOneByOneKeys(table: Table, index: string, vs: seq<StoredVector>, k: (string, string))
    requires k in PutOneByOne(table, index, vs)
    ensures (k in table && PutOneByOne(table, index, vs)[k] == table[k]) ||
      (k.0 == index && PutOneByOne(table, index, vs)[k] in vs && PutOneByOne(table, index, vs)[k].id == k.1)
  {
    if vs != [] {
      var init, last := vs[..|vs| - 1], vs[|vs| - 1];
      assert vs == init + [last];
      if k != (index, last.id) {
        PutOneByOneKeys(table, index, init, k);
      }
    }
  }

  lemma {:induction false} ServedServes(
      vs: seq<StoredVector>, spec: Spec, route: Route, refuse: set<int>, v: StoredVector)
    requires v in Served(vs, spec, route, refuse)
    ensures v in vs && Serves(spec, route, v.id, refuse)
  {
    var init, last := vs[..|vs| - 1], vs[|vs| - 1];
    assert vs == init + [last];
    if v in Served(init, spec, route, refuse) {
      ServedServes(init, spec, route, refuse, v);
    }
  }

  lemma BatchInsertFits(spec: Spec, route: Route, req: Request, env: Env)
    requires TableFits(spec) && TablePlaced(spec, route) && req.BatchInsert?
    ensures TableFits(SpecStep(spec, route, req, env)) && TablePlaced(SpecStep(spec, route, req, env), route)
  {
    if req.index in spec.indexes {
      var vs := Fitting(req.items, spec.indexes[req.index].dimension);
      var served := Served(vs, spec, route, env.refuse);
      var after := SpecStep(spec, route, req, env);
      PutItemsIs(spec.table, spec, route, req.index, req.items, env.refuse);
      forall k | k in after.table
        ensures k.0 in after.indexes && |after.table[k].values| == after.indexes[k.0].dimension
        ensures route(k.1).Some? && route(k.1).value in spec.shards
      {
        PutOneByOneKeys(spec.table, req.index, served, k);
        if after.table[k] in served {
          ServedServes(vs, spec, route, env.refuse, after.table[k]);
          FittingFits(req.items, spec.indexes[req.index].dimension, after.table[k]);
        }
      }
    }
  }

  /** Every request but DropIndex keeps the dimensions. */
  lemma StepFits(spec: Spec, route: Route, req: Request, env: Env)
    requires TableFits(spec) && TablePlaced(spec, route) && !req.DropIndex?
    ensures TableFits(SpecStep(spec, route, req, env)) && TablePlaced(SpecStep(spec, route, req, env), route)
  {
    if req.BatchInsert? {
      BatchInsertFits(spec, route, req, env);
    }
  }

  /**
   * DropIndex leaves no visible vector without an index exactly when every shard that shows vectors of the
   * index carries it out.
   */
  lemma DropFits(spec: Spec, route: Route, index: string, env: Env)
    requires TableFits(spec) && index in spec.indexes
    ensures TableFits(SpecStep(spec, route, DropIndex(index), env)) <==>
      forall e :: (index, e) in spec.table ==> Serves(spec, route, e, env.refuse)
  {
    var after := SpecStep(spec, route, DropIndex(index), env);
    if e :| (index, e) in spec.table && !Serves(spec, route, e, env.refuse) {
      assert (index, e) in after.table;
    } else {
      forall k | k in after.table ensures k.0 in after.indexes {
        assert k == (k.0, k.1);
      }
    }
  }

  /** Every DropIndex of the run finds all shards active and none refusing. */
  ghost predicate CompleteDrops(spec: Spec, route: Route, events: seq<Event>) {
    events == [] ||
    var init, last := events[..|events| - 1], events[|events| - 1];
    && CompleteDrops(spec, route, init)
    && (last.Serve? && last.req.DropIndex? ==>
          spec.shards <= SpecRun(spec, route, init).active && last.env.refuse !! spec.shards)
  }

  lemma {:induction false} SpecRunFits(spec: Spec, route: Route, events: seq<Event>)
    requires spec.table == map[] && CompleteDrops(spec, route, events)
    ensures var after := SpecRun(spec, route, events);
      TableFits(after) && TablePlaced(after, route) && after.shards == spec.shards
  {
    if events != [] {
      var init, last := events[..|events| - 1], events[|events| - 1];
      SpecRunFits(spec, route, init);
      var mid := SpecRun(spec, route, init);
      if last.Serve? {
        if last.req.DropIndex? {
          if last.req.index in mid.indexes {
            DropFits(mid, route, last.req.index, last.env);
          }
        } else {
          StepFits(mid, route, last.req, last.env);
        }
      }
    }
  }

  /**
   * In every reachable state whose drops were complete, each visible vector has the dimension of its
   * index, also across dropping an index and creating it again with another dimension.
   */
  lemma DimensionInvariant(
      st: State, route: Route, events: seq<Event>, names: set<string>, s: int, i: string, e: string)
    requires SafeNames(names) && UsesNames(events, names) && i in names
    requires Initial(st) && ProperRun(st, route, events) && CompleteDrops(SpecOf(st), route, events)
    requires s in Run(st, route, events).dbs && Visible(Run(st, route, events).dbs[s], i, e).Some?
    ensures var after := Run(st, route, events);
      i in after.indexes && |Visible(after.dbs[s], i, e).value.values| == after.indexes[i].dimension
  {
    RunRefines(st, route, events, names);
    SpecRunFits(SpecOf(st), route, events);
    var after, spec := Run(st, route, events), SpecRun(SpecOf(st), route, events);
    assert e in Members(after.dbs[s], i);
    assert Find(spec.table, i, e) == VisibleAt(after, route, i, e);
    assert (i, e) in spec.table;
  }

  // ----- Leftovers -----

  /** Every listed id has its vector key: nothing deleted in a batch is still listed. */
  ghost predicate NoStale(db: Db, names: set<string>) {
    forall i, e :: i in names && e in Members(db, i) ==> Lookup(db, i, e).Some?
  }

  /** Every vector key is listed: no vector of a dropped index is left. */
  ghost predicate NoOrphan(db: Db, names: set<string>) {
    forall i, e :: i in names && Lookup(db, i, e).Some? ==> e in Members(db, i)
  }

  /** The property of one database in question; stale selects which of the two. */
  ghost predicate CleanDb(db: Db, names: set<string>, stale: bool) {
    if stale then NoStale(db, names) else NoOrphan(db, names)
  }

  ghost predicate Clean(st: State, names: set<string>, stale: bool) {
    forall s :: s in st.dbs ==> CleanDb(st.dbs[s], names, stale)
  }

  /** A batch delete of a visible id keeps its listing; a drop of a visible id keeps its key. */
  ghost predicate WriteLeaves(db: Db, w: Write, stale: bool) {
    if stale then w.RemoveMany? && exists e :: e in w.ids && Visible(db, w.index, e).Some?
    else w.Drop? && exists e :: Visible(db, w.index, e).Some?
  }

  /** Listing and key after a write. */
  lemma WriteEffect(db: Db, w: Write, i: string, e: string)
    requires !Clash(w.index, i)
    ensures var after, hit := Apply(db, w), i == w.index && Touches(w, e);
      && (e in Members(after, i) <==> if hit && !w.RemoveMany? then w.Put? else e in Members(db, i))
      && (Lookup(after, i, e).Some? <==> if hit && !w.Drop? then w.Put? else Lookup(db, i, e).Some?)
  {
    match w
    case Put(index, vs) => StoreAllEffect(db, index, vs, i, e);
    case Remove(index, id) => DeleteOneEffect(db, index, id, i, e);
    case RemoveMany(index, ids) => DeleteManyEffect(db, index, ids, i, e);
    case Drop(index) => DropIdsEffect(db, index, i, e);
  }

  /** One id after a write that leaves nothing. */
  lemma CleanAt(db: Db, w: Write, names: set<string>, stale: bool, i: string, e: string)
    requires SafeNames(names) && w.index in names && i in names
    requires CleanDb(db, names, stale) && !WriteLeaves(db, w, stale)
    ensures stale && e in Members(Apply(db, w), i) ==> Lookup(Apply(db, w), i, e).Some?
    ensures !stale && Lookup(Apply(db, w), i, e).Some? ==> e in Members(Apply(db, w), i)
  {
    assert !Clash(w.index, i);
    WriteEffect(db, w, i, e);
    assert stale && w.RemoveMany? && e in w.ids ==> Visible(db, w.index, e).None?;
    assert !stale && w.Drop? ==> Visible(db, w.index, e).None?;
  }

  lemma CleanWrite(db: Db, w: Write, names: set<string>, stale: bool)
    requires SafeNames(names) && w.index in names && CleanDb(db, names, stale)
    ensures CleanDb(Apply(db, w), names, stale) <==> !WriteLeaves(db, w, stale)
  {
    if WriteLeaves(db, w, stale) {
      var e :| Touches(w, e) && Visible(db, w.index, e).Some?;
      assert !Clash(w.index, w.index);
      WriteEffect(db, w, w.index, e);
    } else {
      forall i, e | i in names
        ensures stale && e in Members(Apply(db, w), i) ==> Lookup(Apply(db, w), i, e).Some?
        ensures !stale && Lookup(Apply(db, w), i, e).Some? ==> e in Members(Apply(db, w), i)
      {
        CleanAt(db, w, names, stale, i, e);
      }
    }
  }

  lemma CleanWrites(st: State, after: State, hit: set<int>, w: int -> Write, names: set<string>, stale: bool)
    requires SafeNames(names) && Writes(st, after, hit, w) && Clean(st, names, stale)
    requires forall s :: s in hit ==> w(s).index in names
    ensures Clean(after, names, stale) <==> forall s :: s in hit ==> !WriteLeaves(st.dbs[s], w(s), stale)
  {
    forall s | s in hit ensures CleanDb(after.dbs[s], names, stale) <==> !WriteLeaves(st.dbs[s], w(s), stale) {
      CleanWrite(st.dbs[s], w(s), names, stale);
    }
  }

  /** The id is searchable on its own shard, and that shard carries out the request. */
  predicate ShownAndServed(st: State, route: Route, index: string, e: string, env: Env) {
    route(e).Some? && Accepts(st, route(e).value, env) && Visible(st.dbs[route(e).value], index, e).Some?
  }

  /** The requests that leave something: a batch delete, or a drop, of a searchable id. */
  ghost predicate Leaves(st: State, route: Route, req: Request, env: Env, stale: bool) {
    if stale then req.BatchDelete? && exists e :: e in req.ids && ShownAndServed(st, route, req.index, e, env)
    else req.DropIndex? && req.index in st.indexes && exists e :: ShownAndServed(st, route, req.index, e, env)
  }

  lemma InsertLeaves(st: State, route: Route, req: Request, env: Env, names: set<string>, stale: bool)
    requires SafeNames(names) && req.Insert? && req.index in names && Clean(st, names, stale)
    ensures Clean(Step(st, route, req, env), names, stale)
  {
    var Insert(index, id, metadata, values) := req;
    var home := Home(st, route, id);
    if values != [] && Fits(st, index, values) && home.Some? && home.value !in env.refuse {
      CleanWrites(st, Step(st, route, req, env), {home.value},
        s => Put(index, [StoredVector(id, metadata, env.now, values)]), names, stale);
    }
  }

  lemma UpdateLeaves(st: State, route: Route, req: Request, env: Env, names: set<string>, stale: bool)
    requires SafeNames(names) && req.Update? && req.index in names && Clean(st, names, stale)
    ensures Clean(Step(st, route, req, env), names, stale)
  {
    var Update(index, id, metadata, values) := req;
    var home := Home(st, route, id);
    if Fits(st, index, values) && home.Some? {
      var cleared := st;
      if home.value !in env.refuseDelete {
        cleared := WriteAt(st, home.value, Remove(index, id));
        CleanWrites(st, cleared, {home.value}, s => Remove(index, id), names, stale);
      }
      if home.value !in env.refuse {
        CleanWrites(cleared, Step(st, route, req, env), {home.value},
          s => Put(index, [StoredVector(id, metadata, env.now, values)]), names, stale);
      }
    }
  }

  lemma BatchInsertLeaves(st: State, route: Route, req: Request, env: Env, names: set<string>, stale: bool)
    requires SafeNames(names) && req.BatchInsert? && req.index in names && Clean(st, names, stale)
    requires ProperOrder(st, route, req)
    ensures Clean(Step(st, route, req, env), names, stale)
  {
    var BatchInsert(index, items, order) := req;
    if index in st.indexes {
      var cmd := InsertCommand(index, Fitting(items, st.indexes[index].dimension), route);
      CommitAllWrites(st, order, cmd, env);
      CleanWrites(st, Step(st, route, req, env), AcceptedIn(st, order, env), s => cmd(s).Effect(), names, stale);
    }
  }

  lemma DeleteLeaves(st: State, route: Route, req: Request, env: Env, names: set<string>, stale: bool)
    requires SafeNames(names) && req.Delete? && req.index in names && Clean(st, names, stale)
    ensures Clean(Step(st, route, req, env), names, stale)
  {
    var home := Home(st, route, req.id);
    if home.Some? && home.value !in env.refuse {
      CleanWrites(st, Step(st, route, req, env), {home.value}, s => Remove(req.index, req.id), names, stale);
    }
  }

  /** Some shard of the batch shows an id of its group exactly when some id of the batch is shown and served. */
  lemma GroupsLeave(st: State, route: Route, index: string, ids: seq<string>, order: seq<int>, env: Env)
    requires ElementsOf(order) == Targets(ids, route)
    ensures (forall s :: s in AcceptedIn(st, order, env) ==>
        !WriteLeaves(st.dbs[s], RemoveMany(index, IdGroup(ids, route, s)), true)) <==>
      (forall e :: e in ids ==> !ShownAndServed(st, route, index, e, env))
  {
    if s :| s in AcceptedIn(st, order, env) && WriteLeaves(st.dbs[s], RemoveMany(index, IdGroup(ids, route, s)), true) {
      var e :| e in IdGroup(ids, route, s) && Visible(st.dbs[s], index, e).Some?;
      IdGroupRouted(ids, route, s, e);
      assert ShownAndServed(st, route, index, e, env);
    }
    if e :| e in ids && ShownAndServed(st, route, index, e, env) {
      var s: int := route(e).value;
      IdGroupRouted(ids, route, s, e);
      var k :| 0 <= k < |ids| && ids[k] == e;
      assert s in ElementsOf(order);
      assert WriteLeaves(st.dbs[s], RemoveMany(index, IdGroup(ids, route, s)), true);
    }
  }

  lemma BatchDeleteLeaves(st: State, route: Route, req: Request, env: Env, names: set<string>, stale: bool)
    requires SafeNames(names) && req.BatchDelete? && req.index in names && Clean(st, names, stale)
    requires ProperOrder(st, route, req)
    ensures Clean(Step(st, route, req, env), names, stale) <==> !Leaves(st, route, req, env, stale)
  {
    var BatchDelete(index, ids, order) := req;
    var cmd := DeleteCommand(index, ids, route);
    CommitAllWrites(st, order, cmd, env);
    CleanWrites(st, Step(st, route, req, env), AcceptedIn(st, order, env), s => cmd(s).Effect(), names, stale);
    GroupsLeave(st, route, index, ids, order, env);
  }

  /** Some accepting shard shows an id of the index exactly when some id is shown and served. */
  lemma ShownOnAccepting(st: State, route: Route, index: string, env: Env, names: set<string>)
    requires Routed(st, route, names) && index in names
    ensures (forall s :: s in AcceptingShards(st, env) ==> !WriteLeaves(st.dbs[s], Drop(index), false)) <==>
      (forall e :: !ShownAndServed(st, route, index, e, env))
  {
    if s :| s in AcceptingShards(st, env) && WriteLeaves(st.dbs[s], Drop(index), false) {
      var e :| Visible(st.dbs[s], index, e).Some?;
      assert e in Members(st.dbs[s], index);
      assert ShownAndServed(st, route, index, e, env);
    }
    if e :| ShownAndServed(st, route, index, e, env) {
      assert WriteLeaves(st.dbs[route(e).value], Drop(index), false);
    }
  }

  lemma DropLeaves(st: State, route: Route, req: Request, env: Env, names: set<string>, stale: bool)
    requires SafeNames(names) && req.DropIndex? && req.index in names && Clean(st, names, stale)
    requires Routed(st, route, names)
    ensures Clean(Step(st, route, req, env), names, stale) <==> !Leaves(st, route, req, env, stale)
  {
    if req.index in st.indexes {
      CleanWrites(st, Step(st, route, req, env), AcceptingShards(st, env), s => Drop(req.index), names, stale);
      ShownOnAccepting(st, route, req.index, env, names);
    }
  }

  /** A request keeps the property exactly when it is not one that leaves something. */
  lemma StepLeaves(st: State, route: Route, req: Request, env: Env, names: set<string>, stale: bool)
    requires SafeNames(names) && req.index in names && Clean(st, names, stale) && Routed(st, route, names)
    requires ProperOrder(st, route, req)
    ensures Clean(Step(st, route, req, env), names, stale) <==> !Leaves(st, route, req, env, stale)
  {
    match req
    case Insert(_, _, _, _) => InsertLeaves(st, route, req, env, names, stale);
    case Update(_, _, _, _) => UpdateLeaves(st, route, req, env, names, stale);
    case BatchInsert(_, _, _) => BatchInsertLeaves(st, route, req, env, names, stale);
    case Delete(_, _) => DeleteLeaves(st, route, req, env, names, stale);
    case BatchDelete(_, _, _) => BatchDeleteLeaves(st, route, req, env, names, stale);
    case CreateIndex(_, _) =>
    case DropIndex(_) => DropLeaves(st, route, req, env, names, stale);
  }

  ghost predicate CleanThroughout(st: State, route: Route, events: seq<Event>, names: set<string>, stale: bool) {
    Clean(Run(st, route, events), names, stale) &&
    (events != [] ==> CleanThroughout(st, route, events[..|events| - 1], names, stale))
  }

  /** No request of the run leaves anything when it is served. */
  ghost predicate NeverLeaves(st: State, route: Route, events: seq<Event>, stale: bool) {
    events == [] ||
    var before, last := Run(st, route, events[..|events| - 1]), events[|events| - 1];
    && NeverLeaves(st, route, events[..|events| - 1], stale)
    && (last.Serve? ==> !Leaves(before, route, last.req, last.env, stale))
  }

  lemma {:induction false} CleanExactly(st: State, route: Route, events: seq<Event>, names: set<string>, stale: bool)
    requires SafeNames(names) && UsesNames(events, names) && Initial(st) && ProperRun(st, route, events)
    ensures CleanThroughout(st, route, events, names, stale) <==> NeverLeaves(st, route, events, stale)
  {
    if events != [] {
      var init, last := events[..|events| - 1], events[|events| - 1];
      CleanExactly(st, route, init, names, stale);
      RunRefines(st, route, init, names);
      if CleanThroughout(st, route, init, names, stale) && last.Serve? {
        StepLeaves(Run(st, route, init), route, last.req, last.env, names, stale);
      }
    }
  }

  // ----- Counts -----

  /** The pairs of shard and id that GetStats counts, when the shards in answers reply. */
  function Listed(st: State, answers: set<int>, index: string): set<(int, string)> {
    set s, e | s in st.dbs && s in answers && e in Members(st.dbs[s], index) :: (s, e)
  }

  function Searchable(st: State, answers: set<int>, index: string): set<(int, string)> {
    set s, e | s in st.dbs && s in answers && e in Members(st.dbs[s], index) &&
      Visible(st.dbs[s], index, e).Some? :: (s, e)
  }

  function Paired(s: int, ids: set<string>): set<(int, string)> {
    set e | e in ids :: (s, e)
  }

  lemma {:induction false} PairedSize(s: int, ids: set<string>)
    ensures |Paired(s, ids)| == |ids|
  {
    if ids != {} {
      var e :| e in ids;
      PairedSize(s, ids - {e});
      assert Paired(s, ids) == Paired(s, ids - {e}) + {(s, e)};
    }
  }

  /** Adding up the cardinalities shard by shard. */
  lemma ListedExtends(st: State, done: set<int>, s: int, index: string)
    requires s in st.dbs && s !in done
    ensures |Listed(st, done + {s}, index)| == |Listed(st, done, index)| + |Members(st.dbs[s], index)|
  {
    var members := Members(st.dbs[s], index).Keys;
    PairedSize(s, members);
    forall p: (int, string)
      ensures p in Listed(st, done + {s}, index) <==> p in Listed(st, done, index) + Paired(s, members)
    {
      assert p == (p.0, p.1);
    }
    assert Listed(st, done + {s}, index) == Listed(st, done, index) + Paired(s, members);
    assert Listed(st, done, index) * Paired(s, members) == {};
  }

  /** The total is never below the number of searchable vectors, and exact when nothing listed lost its key. */
  lemma CountBounds(st: State, answers: set<int>, index: string)
    ensures |Searchable(st, answers, index)| <= |Listed(st, answers, index)|
    ensures |Searchable(st, answers, index)| == |Listed(st, answers, index)| <==>
      forall s, e :: s in st.dbs && s in answers && e in Members(st.dbs[s], index) ==>
        Lookup(st.dbs[s], index, e).Some?
  {
    var listed, searchable := Listed(st, answers, index), Searchable(st, answers, index);
    assert listed == searchable + (listed - searchable);
    if |searchable| == |listed| {
      assert listed - searchable == {};
      forall s, e | s in st.dbs && s in answers && e in Members(st.dbs[s], index)
        ensures Lookup(st.dbs[s], index, e).Some?
      {
        assert (s, e) in listed;
      }
    }
    if forall s, e :: s in st.dbs && s in answers && e in Members(st.dbs[s], index) ==>
      Lookup(st.dbs[s], index, e).Some?
    {
      assert searchable == listed;
    }
  }

  /** Whatever shards answer, the total of each index is the number of its searchable vectors. */
  ghost predicate CountsExact(st: State, names: set<string>) {
    forall answers: set<int>, index :: index in names ==>
      |Listed(st, answers, index)| == |Searchable(st, answers, index)|
  }

  lemma CountsExactWhenClean(st: State, names: set<string>)
    ensures CountsExact(st, names) <==> Clean(st, names, true)
  {
    if CountsExact(st, names) {
      forall s, i, e | s in st.dbs && i in names && e in Members(st.dbs[s], i)
        ensures Lookup(st.dbs[s], i, e).Some?
      {
        assert |Listed(st, st.dbs.Keys, i)| == |Searchable(st, st.dbs.Keys, i)|;
        CountBounds(st, st.dbs.Keys, i);
      }
    }
    if Clean(st, names, true) {
      forall answers: set<int>, index | index in names
        ensures |Listed(st, answers, index)| == |Searchable(st, answers, index)|
      {
        CountBounds(st, answers, index);
      }
    }
  }

  ghost predicate CountsExactThroughout(st: State, route: Route, events: seq<Event>, names: set<string>) {
    CountsExact(Run(st, route, events), names) &&
    (events != [] ==> CountsExactThroughout(st, route, events[..|events| - 1], names))
  }

  lemma {:induction false} CountsCleanThroughout(st: State, route: Route, events: seq<Event>, names: set<string>)
    ensures CountsExactThroughout(st, route, events, names) <==> CleanThroughout(st, route, events, names, true)
  {
    CountsExactWhenClean(Run(st, route, events), names);
    if events != [] {
      CountsCleanThroughout(st, route, events[..|events| - 1], names);
    }
  }

  /**
   * The totals are exact in all states of a run, drops and re-creations included, if and only if no batch
   * delete of the run reaches a shard with a searchable id.
   */
  lemma CountsAreExact(st: State, route: Route, events: seq<Event>, names: set<string>)
    requires SafeNames(names) && UsesNames(events, names) && Initial(st) && ProperRun(st, route, events)
    ensures CountsExactThroughout(st, route, events, names) <==> NeverLeaves(st, route, events, true)
  {
    CountsCleanThroughout(st, route, events, names);
    CleanExactly(st, route, events, names, true);
  }

  /** No batch delete, or no drop, occurs at all. */
  predicate Avoids(events: seq<Event>, stale: bool) {
    forall i :: 0 <= i < |events| && events[i].Serve? ==>
      if stale then !events[i].req.BatchDelete? else !events[i].req.DropIndex?
  }

  lemma {:induction false} AvoidingLeavesNothing(st: State, route: Route, events: seq<Event>, stale: bool)
    requires Avoids(events, stale)
    ensures NeverLeaves(st, route, events, stale)
  {
    if events != [] {
      AvoidingLeavesNothing(st, route, events[..|events| - 1], stale);
    }
  }

  /** In every run without BatchDelete the count is exact, also across drops and re-creations. */
  lemma CountIsExactWithoutBatchDelete(
      st: State, route: Route, events: seq<Event>, names: set<string>, answers: set<int>, index: string)
    requires SafeNames(names) && UsesNames(events, names) && index in names && Avoids(events, true)
    requires Initial(st) && ProperRun(st, route, events)
    ensures |Listed(Run(st, route, events), answers, index)| == |Searchable(Run(st, route, events), answers, index)|
  {
    AvoidingLeavesNothing(st, route, events, true);
    CountsAreExact(st, route, events, names);
  }

  /** One vector in index "a", then a batch delete of it. */
  function CountedAfterBatchDelete(): seq<Event> {
    FilledIndex() + [Serve(Request.BatchDelete("a", ["x"], [0]), CALM)]
  }

  lemma OneIdOrder(route: Route)
    requires route("x") == Some(0)
    ensures Targets(["x"], route) == {0} == ElementsOf([0]) && IdGroup(["x"], route, 0) == ["x"]
  {
    assert ["x"][..0] == [];
    assert ["x"][0] == "x";
  }

  lemma OneShardBatch(st: State, s: int, cmd: int -> Service.R.Command, env: Env)
    requires Accepts(st, s, env)
    ensures CommitAll(st, [s], cmd, env) == Commit(st, s, cmd(s), env)
  {
    assert [s][..0] == [];
    assert CommitAll(st, [s][..0], cmd, env) == st;
  }

  lemma OneIdDeleted(st: State, route: Route)
    requires route("x") == Some(0) && 0 in st.active && st.dbs.Keys == {0}
    ensures Step(st, route, Request.BatchDelete("a", ["x"], [0]), CALM).dbs ==
      map[0 := DeleteMany(st.dbs[0], "a", ["x"])]
  {
    OneIdOrder(route);
    OneShardBatch(st, 0, DeleteCommand("a", ["x"], route), CALM);
  }

  lemma CountAfterDelete(st: State)
    requires st.dbs == map[0 := DeleteMany(StoreOne(EMPTY_DB, "a", SAMPLE), "a", ["x"])]
    ensures Listed(st, {0}, "a") == {(0, "x")} && Searchable(st, {0}, "a") == {}
  {
    DeleteManyEffect(StoreOne(EMPTY_DB, "a", SAMPLE), "a", ["x"], "a", "x");
    assert Members(st.dbs[0], "a") == map["x" := 0];
    assert Lookup(st.dbs[0], "a", "x") == None;
  }

  /** A run from empty stores after which one vector is counted and none can be found. */
  lemma BatchDeleteBreaksCount(route: Route)
    requires route("x") == Some(0)
    ensures Initial(ONE_SHARD) && ProperRun(ONE_SHARD, route, CountedAfterBatchDelete())
    ensures var after := Run(ONE_SHARD, route, CountedAfterBatchDelete());
      Listed(after, {0}, "a") == {(0, "x")} && Searchable(after, {0}, "a") == {}
  {
    FilledIndexRun(ONE_SHARD, route);
    SingleStore(EMPTY_DB, "a", SAMPLE);
    OneIdOrder(route);
    RunExtends(ONE_SHARD, route, SpecOf(ONE_SHARD), FilledIndex(), Request.BatchDelete("a", ["x"], [0]), CALM);
    OneIdDeleted(Run(ONE_SHARD, route, FilledIndex()), route);
    CountAfterDelete(Run(ONE_SHARD, route, CountedAfterBatchDelete()));
  }

  /** The searchable vectors are the table's entries: each table id appears on one shard, its own. */
  lemma SearchableIsTable(st: State, route: Route, spec: Spec, names: set<string>, index: string)
    requires Represents(st, route, spec, names) && index in names
    ensures forall s, e :: (s, e) in Searchable(st, st.dbs.Keys, index) <==>
      (index, e) in spec.table && route(e) == Some(s) && s in st.dbs
    ensures forall e :: (index, e) in spec.table ==> route(e).Some? && route(e).value in st.dbs
  {
    forall s, e ensures (s, e) in Searchable(st, st.dbs.Keys, index) <==>
      (index, e) in spec.table && route(e) == Some(s) && s in st.dbs
    {
      assert Find(spec.table, index, e) == VisibleAt(st, route, index, e);
      if s in st.dbs && Visible(st.dbs[s], index, e).Some? {
        assert e in Members(st.dbs[s], index);
      }
    }
    forall e | (index, e) in spec.table ensures route(e).Some? && route(e).value in st.dbs {
      assert Find(spec.table, index, e) == VisibleAt(st, route, index, e);
    }
  }

  // ----- Get -----

  /** Get on a key's shard, where that shard is usable, returns the table's entry. */
  ghost predicate GetsAgree(st: State, route: Route, table: Table, names: set<string>) {
    forall i, e :: i in names && Home(st, route, e).Some? ==>
      Lookup(st.dbs[route(e).value], i, e) == Find(table, i, e)
  }

  lemma GetsAgreeWhenClean(st: State, route: Route, spec: Spec, names: set<string>)
    requires Represents(st, route, spec, names) && Clean(st, names, false)
    ensures GetsAgree(st, route, spec.table, names)
  {
    forall i, e | i in names && Home(st, route, e).Some?
      ensures Lookup(st.dbs[route(e).value], i, e) == Find(spec.table, i, e)
    {
      assert Find(spec.table, i, e) == VisibleAt(st, route, i, e);
      assert NoOrphan(st.dbs[route(e).value], names);
    }
  }

  /** A drop of a searchable vector leaves it to Get at once. */
  lemma DropShowsInGet(st: State, route: Route, spec: Spec, names: set<string>, index: string, env: Env, e: string)
    requires SafeNames(names) && index in names && Represents(st, route, spec, names) && index in st.indexes
    requires ShownAndServed(st, route, index, e, env)
    ensures var after := Step(st, route, DropIndex(index), env);
      && Home(after, route, e).Some?
      && Lookup(after.dbs[route(e).value], index, e) == Visible(st.dbs[route(e).value], index, e)
      && Find(SpecStep(spec, route, DropIndex(index), env).table, index, e) == None
  {
    DropIdsEffect(st.dbs[route(e).value], index, index, e);
    DropFinds(st, spec, route, index, env, index, e);
  }

  ghost predicate GetsAgreeThroughout(st: State, route: Route, events: seq<Event>, names: set<string>) {
    GetsAgree(Run(st, route, events), route, SpecRun(SpecOf(st), route, events).table, names) &&
    (events != [] ==> GetsAgreeThroughout(st, route, events[..|events| - 1], names))
  }

  /**
   * Get returns the table's entry in all states of a run if and only if no drop of the run reaches a shard
   * with a searchable vector of the index.
   */
  lemma {:induction false} GetsAreExact(st: State, route: Route, events: seq<Event>, names: set<string>)
    requires SafeNames(names) && UsesNames(events, names) && Initial(st) && ProperRun(st, route, events)
    ensures GetsAgreeThroughout(st, route, events, names) <==> NeverLeaves(st, route, events, false)
  {
    var after, spec := Run(st, route, events), SpecRun(SpecOf(st), route, events);
    CleanExactly(st, route, events, names, false);
    RunRefines(st, route, events, names);
    if NeverLeaves(st, route, events, false) {
      GetsAgreeWhenClean(after, route, spec, names);
    }
    if events != [] {
      var init, last := events[..|events| - 1], events[|events| - 1];
      GetsAreExact(st, route, init, names);
      RunRefines(st, route, init, names);
      var before := Run(st, route, init);
      if last.Serve? && Leaves(before, route, last.req, last.env, false) {
        var e :| ShownAndServed(before, route, last.req.index, e, last.env);
        DropShowsInGet(before, route, SpecRun(SpecOf(st), route, init), names, last.req.index, last.env, e);
      }
    }
  }

  /** In every run without DropIndex, Get on a key's shard returns exactly the table's entry. */
  lemma GetAgreesWithoutDrop(
      st: State, route: Route, events: seq<Event>, names: set<string>, i: string, e: string)
    requires SafeNames(names) && UsesNames(events, names) && i in names && Avoids(events, false)
    requires Initial(st) && ProperRun(st, route, events)
    requires Home(Run(st, route, events), route, e).Some?
    ensures Lookup(Run(st, route, events).dbs[route(e).value], i, e) ==
      Find(SpecRun(SpecOf(st), route, events).table, i, e)
  {
    AvoidingLeavesNothing(st, route, events, false);
    GetsAreExact(st, route, events, names);
  }

  /** One vector in index "a", then a drop that the shard carries out. */
  function KeptAfterDrop(): seq<Event> {
    FilledIndex() + [Serve(Request.DropIndex("a"), CALM)]
  }

  /** A run from empty stores after which the index is gone and Get still returns its vector. */
  lemma DropLeavesVectorToGet(route: Route)
    requires route("x") == Some(0)
    ensures Initial(ONE_SHARD) && ProperRun(ONE_SHARD, route, KeptAfterDrop())
    ensures var after := Run(ONE_SHARD, route, KeptAfterDrop());
      && "a" !in after.indexes && Home(after, route, "x") == Some(0)
      && Lookup(after.dbs[0], "a", "x") == Some(SAMPLE) && Visible(after.dbs[0], "a", "x") == None
  {
    FilledIndexRun(ONE_SHARD, route);
    SingleStore(EMPTY_DB, "a", SAMPLE);
    RunExtends(ONE_SHARD, route, SpecOf(ONE_SHARD), FilledIndex(), Request.DropIndex("a"), CALM);
    DroppedStore(Run(ONE_SHARD, route, KeptAfterDrop()).dbs[0]);
  }

  lemma DroppedStore(db: Db)
    requires db == DropIds(StoreOne(EMPTY_DB, "a", SAMPLE), "a")
    ensures Lookup(db, "a", "x") == Some(SAMPLE) && Visible(db, "a", "x") == None
  {
    DropIdsEffect(StoreOne(EMPTY_DB, "a", SAMPLE), "a", "a", "x");
  }
}
