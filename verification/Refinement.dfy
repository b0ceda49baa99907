/**
 * The sharded service refines one flat table: what searches can see over all shards equals a plain map
 * from index and id to vector, in every run, with any shard failures along the way.
 */
module Refinement {
  import opened Common
  import opened Vectors
  import opened Store
  import opened Service

  // ----- The abstraction -----

  /** What a search can see under an id, on the shard its key routes to. */
  function VisibleAt(st: State, route: Route, i: string, e: string): Option<StoredVector> {
    if route(e).Some? && route(e).value in st.dbs then Visible(st.dbs[route(e).value], i, e) else None
  }

  /** No shard lists an id that routes elsewhere. */
  ghost predicate Routed(st: State, route: Route, names: set<string>) {
    forall s, i, e :: s in st.dbs && i in names && e in Members(st.dbs[s], i) ==> route(e) == Some(s)
  }

  type Table = map<(string, string), StoredVector>

  function Find(table: Table, i: string, e: string): Option<StoredVector> {
    if (i, e) in table then Some(table[(i, e)]) else None
  }

  /** The specification state: a flat table, the index records, and which shards take part. */
  datatype Spec = Spec(table: Table, indexes: map<string, VectorIndex>, active: set<int>, shards: set<int>)

  predicate Serves(spec: Spec, route: Route, e: string, refuse: set<int>) {
    route(e).Some? && route(e).value in spec.active && route(e).value in spec.shards && route(e).value !in refuse
  }

  /** A batch on the table: each item that fits and is served, in order, under its own id and time. */
  function PutItems(table: Table, spec: Spec, route: Route, index: string, items: seq<Item>, refuse: set<int>): Table
    requires index in spec.indexes
  {
    if items == [] then table
    else
      var item := items[|items| - 1];
      var before := PutItems(table, spec, route, index, items[..|items| - 1], refuse);
      if |item.values| == spec.indexes[index].dimension && Serves(spec, route, item.id, refuse)
      then before[(index, item.id) := StoredVector(item.id, item.metadata, item.time, item.values)]
      else before
  }

  function SpecStep(spec: Spec, route: Route, req: Request, env: Env): Spec {
    match req
    case Insert(index, id, metadata, values) =>
      if values == [] || index !in spec.indexes || |values| != spec.indexes[index].dimension ||
         !Serves(spec, route, id, env.refuse) then spec
      else spec.(table := spec.table[(index, id) := StoredVector(id, metadata, env.now, values)])
    case Update(index, id, metadata, values) =>
      if index !in spec.indexes || |values| != spec.indexes[index].dimension || !Serves(spec, route, id, {}) then spec
      else if Serves(spec, route, id, env.refuse) then
        spec.(table := spec.table[(index, id) := StoredVector(id, metadata, env.now, values)])
      else if Serves(spec, route, id, env.refuseDelete) then spec.(table := spec.table - {(index, id)})
      else spec
    case BatchInsert(index, items, _) =>
      if index !in spec.indexes then spec
      else spec.(table := PutItems(spec.table, spec, route, index, items, env.refuse))
    case Delete(index, id) =>
      if Serves(spec, route, id, env.refuse) then spec.(table := spec.table - {(index, id)}) else spec
    case BatchDelete(index, ids, _) =>
      spec.(table := map k | k in spec.table &&
        !(k.0 == index && k.1 in ids && Serves(spec, route, k.1, env.refuse)) :: spec.table[k])
    case CreateIndex(index, definition) =>
      if index in spec.indexes || !definition.Validates() then spec
      else spec.(indexes := spec.indexes[index := definition])
    case DropIndex(index) =>
      if index !in spec.indexes then spec
      else
        spec.(indexes := spec.indexes - {index},
              table := map k | k in spec.table && !(k.0 == index && Serves(spec, route, k.1, env.refuse)) ::
                spec.table[k])
  }

  function SpecNext(spec: Spec, route: Route, e: Event): Spec {
    match e
    case Serve(req, env) => SpecStep(spec, route, req, env)
    case CheckShards(answers) => spec.(active := spec.shards * answers)
    case _ => spec
  }

  function SpecRun(spec: Spec, route: Route, events: seq<Event>): Spec {
    if events == [] then spec
    else SpecNext(SpecRun(spec, route, events[..|events| - 1]), route, events[|events| - 1])
  }

  ghost predicate SameTable(st: State, route: Route, table: Table, names: set<string>) {
    forall i, e :: i in names ==> Find(table, i, e) == VisibleAt(st, route, i, e)
  }

  ghost predicate Represents(st: State, route: Route, spec: Spec, names: set<string>) {
    && spec.indexes == st.indexes && spec.active == st.active && spec.shards == st.dbs.Keys
    && Routed(st, route, names)
    && SameTable(st, route, spec.table, names)
  }

  // ----- One write -----

  /** The ids a write can list all route to the shard it goes to. */
  ghost predicate Local(w: Write, route: Route, s: int) {
    w.Put? ==> forall v :: v in w.vectors ==> route(v.id) == Some(s)
  }

  lemma WriteRouted(db: Db, w: Write, route: Route, s: int, names: set<string>)
    requires SafeNames(names) && w.index in names && Local(w, route, s)
    requires forall i, e :: i in names && e in Members(db, i) ==> route(e) == Some(s)
    ensures forall i, e :: i in names && e in Members(Apply(db, w), i) ==> route(e) == Some(s)
  {
    forall i, e | i in names && e in Members(Apply(db, w), i) ensures route(e) == Some(s) {
      ListedAfterWrite(db, w, i, e);
      if e !in Members(db, i) {
        LastWithIsMember(w.vectors, e);
      }
    }
  }

  /** What the writes, at most one per shard and all on one index, leave visible. */
  function VisibleAfterWrites(
      before: Option<StoredVector>, route: Route, hit: set<int>, w: int -> Write, i: string, e: string)
    : Option<StoredVector>
  {
    if route(e).Some? && route(e).value in hit then VisibleAfter(before, w(route(e).value), i, e) else before
  }

  ghost predicate Writes(st: State, after: State, hit: set<int>, w: int -> Write) {
    && hit <= st.dbs.Keys == after.dbs.Keys
    && forall s :: s in st.dbs ==> (after.dbs[s] == if s in hit then Apply(st.dbs[s], w(s)) else st.dbs[s])
  }

  lemma WritesVisible(st: State, after: State, route: Route, hit: set<int>, w: int -> Write, i: string, e: string)
    requires Writes(st, after, hit, w)
    requires forall s :: s in hit ==> !Clash(w(s).index, i)
    ensures VisibleAt(after, route, i, e) == VisibleAfterWrites(VisibleAt(st, route, i, e), route, hit, w, i, e)
  {
    if route(e).Some? {
      var s: int := route(e).value;
      if s in hit {
        assert !Clash(w(s).index, i);
        VisibleAfterWrite(st.dbs[s], w(s), i, e);
      }
    }
  }

  lemma WritesRouted(st: State, after: State, route: Route, hit: set<int>, w: int -> Write, names: set<string>)
    requires SafeNames(names) && Routed(st, route, names) && Writes(st, after, hit, w)
    requires forall s :: s in hit ==> w(s).index in names && Local(w(s), route, s)
    ensures Routed(after, route, names)
  {
    forall s | s in hit
      ensures forall i, e :: i in names && e in Members(after.dbs[s], i) ==> route(e) == Some(s)
    {
      WriteRouted(st.dbs[s], w(s), route, s, names);
    }
  }

  /** The writes change the visible table the way the specification's table changes. */
  lemma WritesRefine(st: State, after: State, route: Route, hit: set<int>, w: int -> Write, index: string,
                     table: Table, table': Table, names: set<string>)
    requires SafeNames(names) && index in names
    requires Routed(st, route, names) && SameTable(st, route, table, names)
    requires Writes(st, after, hit, w)
    requires forall s :: s in hit ==> w(s).index == index && Local(w(s), route, s)
    requires forall i, e :: i in names ==>
      Find(table', i, e) == VisibleAfterWrites(Find(table, i, e), route, hit, w, i, e)
    ensures Routed(after, route, names) && SameTable(after, route, table', names)
  {
    WritesRouted(st, after, route, hit, w, names);
    forall i, e | i in names ensures Find(table', i, e) == VisibleAt(after, route, i, e) {
      assert !Clash(index, i);
      WritesVisible(st, after, route, hit, w, i, e);
      assert Find(table, i, e) == VisibleAt(st, route, i, e);
    }
  }

  // ----- The specification's side of a batch -----

  /** Putting vectors one by one, in order. */
  function PutOneByOne(table: Table, index: string, vs: seq<StoredVector>): Table {
    if vs == [] then table
    else PutOneByOne(table, index, vs[..|vs| - 1])[(index, vs[|vs| - 1].id) := vs[|vs| - 1]]
  }

  function Served(vs: seq<StoredVector>, spec: Spec, route: Route, refuse: set<int>): seq<StoredVector> {
    if vs == [] then []
    else
      var last := vs[|vs| - 1];
      Served(vs[..|vs| - 1], spec, route, refuse) + if Serves(spec, route, last.id, refuse) then [last] else []
  }

  lemma PutLast(table: Table, index: string, vs: seq<StoredVector>, v: StoredVector)
    ensures PutOneByOne(table, index, vs + [v]) == PutOneByOne(table, index, vs)[(index, v.id) := v]
  {
    assert (vs + [v])[..|vs + [v]| - 1] == vs;
  }

  lemma ServedExtends(vs: seq<StoredVector>, v: StoredVector, spec: Spec, route: Route, refuse: set<int>)
    ensures Served(vs + [v], spec, route, refuse) ==
      Served(vs, spec, route, refuse) + if Serves(spec, route, v.id, refuse) then [v] else []
  {
    assert (vs + [v])[..|vs + [v]| - 1] == vs;
  }

  /** The items of a batch go to the table as the vectors that the shards are sent. */
  lemma {:induction false} PutItemsIs(table: Table, spec: Spec, route: Route, index: string, items: seq<Item>,
                                      refuse: set<int>)
    requires index in spec.indexes
    ensures PutItems(table, spec, route, index, items, refuse) ==
      PutOneByOne(table, index, Served(Fitting(items, spec.indexes[index].dimension), spec, route, refuse))
  {
    if items != [] {
      var init, item := items[..|items| - 1], items[|items| - 1];
      var dimension := spec.indexes[index].dimension;
      PutItemsIs(table, spec, route, index, init, refuse);
      var vs := Fitting(init, dimension);
      var served := Served(vs, spec, route, refuse);
      if |item.values| == dimension {
        ServedExtends(vs, Stamped(item), spec, route, refuse);
        PutLast(table, index, served, Stamped(item));
        assert served + [] == served;
      } else {
        assert vs + [] == vs;
      }
    }
  }

  lemma {:induction false} PutOneByOneFinds(table: Table, index: string, vs: seq<StoredVector>, i: string, e: string)
    ensures Find(PutOneByOne(table, index, vs), i, e) ==
      if i == index && LastWith(vs, e).Some? then LastWith(vs, e) else Find(table, i, e)
  {
    if vs != [] {
      PutOneByOneFinds(table, index, vs[..|vs| - 1], i, e);
    }
  }

  lemma {:induction false} ServedLast(
      vs: seq<StoredVector>, spec: Spec, route: Route, refuse: set<int>, e: string)
    ensures LastWith(Served(vs, spec, route, refuse), e) ==
      if Serves(spec, route, e, refuse) then LastWith(vs, e) else None
  {
    if vs != [] {
      var init, last := vs[..|vs| - 1], vs[|vs| - 1];
      ServedLast(init, spec, route, refuse, e);
      var served := Served(init, spec, route, refuse);
      assert (served + [last])[..|served + [last]| - 1] == served;
      assert served + [] == served;
    }
  }

  // ----- Requests -----

  lemma SingleIsLast(v: StoredVector, e: string)
    ensures LastWith([v], e) == if v.id == e then Some(v) else None
  {
  }

  /** A vector stored on its home shard is the vector put into the table. */
  lemma StoredRefines(st: State, route: Route, spec: Spec, names: set<string>, index: string, v: StoredVector, env: Env)
    requires SafeNames(names) && index in names && Represents(st, route, spec, names)
    requires Home(st, route, v.id).Some?
    ensures var after := Commit(st, route(v.id).value, Service.R.Insert(index, v), env);
      Represents(after, route, spec.(table := spec.table[(index, v.id) := v]), names)
  {
    var w := (s: int) => Put(index, [v]);
    var hit := {route(v.id).value};
    forall i, e ensures Find(spec.table[(index, v.id) := v], i, e) ==
      VisibleAfterWrites(Find(spec.table, i, e), route, hit, w, i, e)
    {
      SingleIsLast(v, e);
    }
    WritesRefine(st, Commit(st, route(v.id).value, Service.R.Insert(index, v), env), route, hit, w, index,
      spec.table, spec.table[(index, v.id) := v], names);
  }

  lemma InsertRefines(st: State, route: Route, spec: Spec, names: set<string>, req: Request, env: Env)
    requires SafeNames(names) && req.Insert? && req.index in names && Represents(st, route, spec, names)
    ensures Represents(Step(st, route, req, env), route, SpecStep(spec, route, req, env), names)
  {
    var home := Home(st, route, req.id);
    if req.values != [] && Fits(st, req.index, req.values) && home.Some? && home.value !in env.refuse {
      StoredRefines(st, route, spec, names, req.index,
        StoredVector(req.id, req.metadata, env.now, req.values), env);
    }
  }

  lemma RemoveRefines(st: State, after: State, route: Route, table: Table, index: string, id: string,
                      names: set<string>)
    requires SafeNames(names) && index in names
    requires Routed(st, route, names) && SameTable(st, route, table, names)
    requires route(id).Some? && route(id).value in st.dbs
    requires after == WriteAt(st, route(id).value, Remove(index, id))
    ensures Routed(after, route, names) && SameTable(after, route, table - {(index, id)}, names)
  {
    var w := (s: int) => Remove(index, id);
    WritesRefine(st, after, route, {route(id).value}, w, index, table, table - {(index, id)}, names);
  }

  lemma UpdateRefines(st: State, route: Route, spec: Spec, names: set<string>, req: Request, env: Env)
    requires SafeNames(names) && req.Update? && req.index in names && Represents(st, route, spec, names)
    ensures Represents(Step(st, route, req, env), route, SpecStep(spec, route, req, env), names)
  {
    var Update(index, id, metadata, values) := req;
    var home := Home(st, route, id);
    if Fits(st, index, values) && home.Some? {
      var cleared, rest := st, spec;
      if home.value !in env.refuseDelete {
        cleared := WriteAt(st, home.value, Remove(index, id));
        rest := spec.(table := spec.table - {(index, id)});
        RemoveRefines(st, cleared, route, spec.table, index, id, names);
      }
      assert Represents(cleared, route, rest, names);
      if home.value !in env.refuse {
        var v := StoredVector(id, metadata, env.now, values);
        StoredRefines(cleared, route, rest, names, index, v, env);
        assert rest.table[(index, id) := v] == spec.table[(index, id) := v];
      }
    }
  }

  lemma DeleteRefines(st: State, route: Route, spec: Spec, names: set<string>, req: Request, env: Env)
    requires SafeNames(names) && req.Delete? && req.index in names && Represents(st, route, spec, names)
    ensures Represents(Step(st, route, req, env), route, SpecStep(spec, route, req, env), names)
  {
    var home := Home(st, route, req.id);
    if home.Some? && home.value !in env.refuse {
      RemoveRefines(st, WriteAt(st, home.value, Remove(req.index, req.id)), route, spec.table, req.index, req.id,
        names);
    }
  }

  /** The shards a batch writes to. */
  lemma CommitAllWrites(st: State, order: seq<int>, cmd: int -> Service.R.Command, env: Env)
    requires NoDuplicates(order)
    ensures var after := CommitAll(st, order, cmd, env);
      && Writes(st, after, AcceptedIn(st, order, env), s => cmd(s).Effect())
      && after.active == st.active && after.indexes == st.indexes
  {
  }

  /** An entry of the table after a batch insert, as the shards' writes leave it. */
  lemma BatchInsertFinds(st: State, spec: Spec, route: Route, index: string, vs: seq<StoredVector>, order: seq<int>,
                         env: Env, i: string, e: string)
    requires spec.active == st.active && spec.shards == st.dbs.Keys
    requires ElementsOf(order) == Targets(Ids(vs), route)
    ensures Find(PutOneByOne(spec.table, index, Served(vs, spec, route, env.refuse)), i, e) ==
      VisibleAfterWrites(Find(spec.table, i, e), route, AcceptedIn(st, order, env),
        s => InsertCommand(index, vs, route)(s).Effect(), i, e)
  {
    PutOneByOneFinds(spec.table, index, Served(vs, spec, route, env.refuse), i, e);
    ServedLast(vs, spec, route, env.refuse, e);
    BatchReaches(vs, route, order, e);
    if route(e).Some? {
      var s: int := route(e).value;
      GroupKeepsLast(vs, route, s, e);
      assert InsertCommand(index, vs, route)(s).Effect() == Put(index, Group(vs, route, s));
    }
  }

  lemma BatchInsertRefines(st: State, route: Route, spec: Spec, names: set<string>, req: Request, env: Env)
    requires SafeNames(names) && req.BatchInsert? && req.index in names && Represents(st, route, spec, names)
    requires ProperOrder(st, route, req)
    ensures Represents(Step(st, route, req, env), route, SpecStep(spec, route, req, env), names)
  {
    var BatchInsert(index, items, order) := req;
    if index in st.indexes {
      var vs := Fitting(items, st.indexes[index].dimension);
      var cmd := InsertCommand(index, vs, route);
      var w := (s: int) => cmd(s).Effect();
      var hit := AcceptedIn(st, order, env);
      CommitAllWrites(st, order, cmd, env);
      var table' := SpecStep(spec, route, req, env).table;
      PutItemsIs(spec.table, spec, route, index, items, env.refuse);
      forall i, e ensures Find(table', i, e) == VisibleAfterWrites(Find(spec.table, i, e), route, hit, w, i, e) {
        BatchInsertFinds(st, spec, route, index, vs, order, env, i, e);
      }
      forall s | s in hit ensures Local(w(s), route, s) {
        forall v | v in Group(vs, route, s) ensures route(v.id) == Some(s) {
          GroupRouted(vs, route, s, v);
        }
      }
      WritesRefine(st, CommitAll(st, order, cmd, env), route, hit, w, index, spec.table, table', names);
    }
  }

  /** If the batch holds a vector with the id and the id routes somewhere, that shard gets a group. */
  lemma BatchReaches(vs: seq<StoredVector>, route: Route, order: seq<int>, e: string)
    requires ElementsOf(order) == Targets(Ids(vs), route)
    ensures LastWith(vs, e).Some? && route(e).Some? ==> route(e).value in order
  {
    LastWithIsMember(vs, e);
    if LastWith(vs, e).Some? && route(e).Some? {
      var i :| 0 <= i < |vs| && vs[i] == LastWith(vs, e).value;
      assert Ids(vs)[i] == e;
      assert route(e).value in ElementsOf(order);
    }
  }

  /** The batch touches an id if and only if its shard is written to with a group that holds it. */
  lemma BatchDeleteHits(st: State, spec: Spec, route: Route, ids: seq<string>, order: seq<int>, env: Env, e: string)
    requires spec.active == st.active && spec.shards == st.dbs.Keys && ElementsOf(order) == Targets(ids, route)
    ensures e in ids && Serves(spec, route, e, env.refuse) <==>
      (route(e).Some? && route(e).value in AcceptedIn(st, order, env) && e in IdGroup(ids, route, route(e).value))
  {
    if route(e).Some? {
      IdGroupRouted(ids, route, route(e).value, e);
      if e in ids {
        var k :| 0 <= k < |ids| && ids[k] == e;
        assert route(e).value in ElementsOf(order);
      }
    }
  }

  lemma BatchDeleteFinds(st: State, spec: Spec, route: Route, index: string, ids: seq<string>, order: seq<int>,
                         env: Env, i: string, e: string)
    requires spec.active == st.active && spec.shards == st.dbs.Keys && ElementsOf(order) == Targets(ids, route)
    ensures Find(SpecStep(spec, route, BatchDelete(index, ids, order), env).table, i, e) ==
      VisibleAfterWrites(Find(spec.table, i, e), route, AcceptedIn(st, order, env),
        s => DeleteCommand(index, ids, route)(s).Effect(), i, e)
  {
    BatchDeleteHits(st, spec, route, ids, order, env, e);
    if route(e).Some? {
      var s: int := route(e).value;
      assert DeleteCommand(index, ids, route)(s).Effect() == RemoveMany(index, IdGroup(ids, route, s));
    }
  }

  lemma BatchDeleteRefines(st: State, route: Route, spec: Spec, names: set<string>, req: Request, env: Env)
    requires SafeNames(names) && req.BatchDelete? && req.index in names && Represents(st, route, spec, names)
    requires ProperOrder(st, route, req)
    ensures Represents(Step(st, route, req, env), route, SpecStep(spec, route, req, env), names)
  {
    var BatchDelete(index, ids, order) := req;
    var cmd := DeleteCommand(index, ids, route);
    var w := (s: int) => cmd(s).Effect();
    var hit := AcceptedIn(st, order, env);
    CommitAllWrites(st, order, cmd, env);
    var table' := SpecStep(spec, route, req, env).table;
    forall i, e ensures Find(table', i, e) == VisibleAfterWrites(Find(spec.table, i, e), route, hit, w, i, e) {
      BatchDeleteFinds(st, spec, route, index, ids, order, env, i, e);
    }
    WritesRefine(st, CommitAll(st, order, cmd, env), route, hit, w, index, spec.table, table', names);
  }

  function AcceptingShards(st: State, env: Env): set<int> {
    set s | s in st.dbs && Accepts(st, s, env)
  }

  lemma DropFinds(st: State, spec: Spec, route: Route, index: string, env: Env, i: string, e: string)
    requires spec.active == st.active && spec.shards == st.dbs.Keys && index in spec.indexes
    ensures Find(SpecStep(spec, route, DropIndex(index), env).table, i, e) ==
      VisibleAfterWrites(Find(spec.table, i, e), route, AcceptingShards(st, env), _ => Drop(index), i, e)
  {
  }

  lemma DropIndexRefines(st: State, route: Route, spec: Spec, names: set<string>, req: Request, env: Env)
    requires SafeNames(names) && req.DropIndex? && req.index in names && Represents(st, route, spec, names)
    ensures Represents(Step(st, route, req, env), route, SpecStep(spec, route, req, env), names)
  {
    var index := req.index;
    if index in st.indexes {
      var after, table' := Step(st, route, req, env), SpecStep(spec, route, req, env).table;
      forall i, e
        ensures Find(table', i, e) ==
          VisibleAfterWrites(Find(spec.table, i, e), route, AcceptingShards(st, env), _ => Drop(index), i, e)
      {
        DropFinds(st, spec, route, index, env, i, e);
      }
      WritesRefine(st, after, route, AcceptingShards(st, env), _ => Drop(index), index, spec.table, table', names);
    }
  }

  // ----- Ids in the table -----

  /** Every entry holds a vector of its own id. */
  ghost predicate Named(table: Table) {
    forall k :: k in table ==> table[k].id == k.1
  }

  lemma {:induction false} PutItemsNames(table: Table, spec: Spec, route: Route, index: string, items: seq<Item>,
                                         refuse: set<int>)
    requires index in spec.indexes && Named(table)
    ensures Named(PutItems(table, spec, route, index, items, refuse))
  {
    if items != [] {
      PutItemsNames(table, spec, route, index, items[..|items| - 1], refuse);
    }
  }

  lemma {:induction false} SpecRunNames(spec: Spec, route: Route, events: seq<Event>)
    requires Named(spec.table)
    ensures Named(SpecRun(spec, route, events).table)
  {
    if events != [] {
      var init, last := events[..|events| - 1], events[|events| - 1];
      SpecRunNames(spec, route, init);
      var mid := SpecRun(spec, route, init);
      if last.Serve? && last.req.BatchInsert? && last.req.index in mid.indexes {
        PutItemsNames(mid.table, mid, route, last.req.index, last.req.items, last.env.refuse);
      }
    }
  }

  // ----- Whole runs -----

  lemma StepRefines(st: State, route: Route, spec: Spec, names: set<string>, req: Request, env: Env)
    requires SafeNames(names) && req.index in names && Represents(st, route, spec, names)
    requires ProperOrder(st, route, req)
    ensures Represents(Step(st, route, req, env), route, SpecStep(spec, route, req, env), names)
  {
    match req
    case Insert(_, _, _, _) => InsertRefines(st, route, spec, names, req, env);
    case Update(_, _, _, _) => UpdateRefines(st, route, spec, names, req, env);
    case BatchInsert(_, _, _) => BatchInsertRefines(st, route, spec, names, req, env);
    case Delete(_, _) => DeleteRefines(st, route, spec, names, req, env);
    case BatchDelete(_, _, _) => BatchDeleteRefines(st, route, spec, names, req, env);
    case CreateIndex(_, _) =>
    case DropIndex(_) => DropIndexRefines(st, route, spec, names, req, env);
  }

  function SpecOf(st: State): Spec {
    Spec(map[], st.indexes, st.active, st.dbs.Keys)
  }

  lemma InitialRepresents(st: State, route: Route, names: set<string>)
    requires Initial(st)
    ensures Represents(st, route, SpecOf(st), names)
  {
    forall s, i | s in st.dbs && i in names ensures Members(st.dbs[s], i) == map[] {
    }
  }

  lemma NextRefines(st: State, route: Route, spec: Spec, names: set<string>, e: Event)
    requires SafeNames(names) && Represents(st, route, spec, names)
    requires e.Serve? ==> e.req.index in names && ProperOrder(st, route, e.req)
    ensures Represents(Next(st, route, e), route, SpecNext(spec, route, e), names)
  {
    match e
    case Serve(req, env) => StepRefines(st, route, spec, names, req, env);
    case CheckShards(_) => SameDbsRepresent(st, Next(st, route, e), route, spec.table, names);
    case _ => SameDbsRepresent(st, Next(st, route, e), route, spec.table, names);
  }

  lemma SameDbsRepresent(st: State, after: State, route: Route, table: Table, names: set<string>)
    requires after.dbs == st.dbs && Routed(st, route, names) && SameTable(st, route, table, names)
    ensures Routed(after, route, names) && SameTable(after, route, table, names)
  {
  }

  /**
   * Whole-run refinement: from empty stores, after any run of requests and health checks, with any calls
   * refused on the way, what searches can see is the specification's table, and every id is listed only
   * on the shard its key routes to.
   */
  lemma {:induction false} RunRefines(st: State, route: Route, events: seq<Event>, names: set<string>)
    requires SafeNames(names) && UsesNames(events, names)
    requires Initial(st) && ProperRun(st, route, events)
    ensures Represents(Run(st, route, events), route, SpecRun(SpecOf(st), route, events), names)
  {
    if events == [] {
      InitialRepresents(st, route, names);
    } else {
      var init, last := events[..|events| - 1], events[|events| - 1];
      RunRefines(st, route, init, names);
      NextRefines(Run(st, route, init), route, SpecRun(SpecOf(st), route, init), names, last);
    }
  }

  // ----- The condition on index names is exact -----

  ghost predicate AlwaysRefines(names: set<string>) {
    forall st: State, route: Route, events: seq<Event> ::
      (Initial(st) && ProperRun(st, route, events) && UsesNames(events, names)) ==>
        Represents(Run(st, route, events), route, SpecRun(SpecOf(st), route, events), names)
  }

  /** Every run over the names refines the table exactly when no two of the names clash. */
  lemma RefinementNeedsSafeNames(names: set<string>)
    ensures AlwaysRefines(names) <==> SafeNames(names)
  {
    if SafeNames(names) {
      forall st: State, route: Route, events: seq<Event>
        | Initial(st) && ProperRun(st, route, events) && UsesNames(events, names)
        ensures Represents(Run(st, route, events), route, SpecRun(SpecOf(st), route, events), names)
      {
        RunRefines(st, route, events, names);
      }
    } else {
      var a, b :| a in names && b in names && Clash(a, b);
      if a + ":" <= b {
        ClashBreaksRefinement(a, b, names);
      } else {
        ClashBreaksRefinement(b, a, names);
      }
    }
  }

  const ONE_SHARD := State(map[0 := EMPTY_DB], {0}, map[], Service.R.EMPTY)
  const CALM := Env({}, {}, s => {}, 0)

  lemma RunExtends(st: State, route: Route, spec: Spec, events: seq<Event>, req: Request, env: Env)
    requires ProperRun(st, route, events) && ProperOrder(Run(st, route, events), route, req)
    ensures var longer := events + [Serve(req, env)];
      && ProperRun(st, route, longer)
      && Run(st, route, longer) == Step(Run(st, route, events), route, req, env)
      && SpecRun(spec, route, longer) == SpecStep(SpecRun(spec, route, events), route, req, env)
  {
  }

  lemma SingleStore(db: Db, index: string, v: StoredVector)
    ensures Apply(db, Put(index, [v])) == StoreOne(db, index, v)
  {
    assert [v][..0] == [];
    assert StoreAll(db, index, [v][..0]) == db;
  }

  const ONE_DIMENSION := VectorIndex("", 1, "cosine", 1, 0, map[])

  /** Inserting one vector into a single calm shard, on both sides. */
  lemma CalmInsert(st: State, route: Route, spec: Spec, index: string, id: string, value: real)
    requires route(id) == Some(0) && 0 in st.active && 0 in st.dbs && st.repl == Service.R.EMPTY
    requires spec.active == st.active && spec.shards == st.dbs.Keys && spec.indexes == st.indexes
    requires index in st.indexes && st.indexes[index] == ONE_DIMENSION
    ensures var v, req := StoredVector(id, map[], 0, [value]), Request.Insert(index, id, map[], [value]);
      && Step(st, route, req, CALM) == st.(dbs := st.dbs[0 := StoreOne(st.dbs[0], index, v)])
      && SpecStep(spec, route, req, CALM) == spec.(table := spec.table[(index, id) := v])
  {
    SingleStore(st.dbs[0], index, StoredVector(id, map[], 0, [value]));
  }

  function Creations(a: string, b: string): seq<Event> {
    [] + [Serve(CreateIndex(a, ONE_DIMENSION), CALM)] + [Serve(CreateIndex(b, ONE_DIMENSION), CALM)]
  }

  lemma CreationsRun(a: string, b: string, route: Route)
    requires a != b
    ensures var created := ONE_SHARD.(indexes := map[a := ONE_DIMENSION, b := ONE_DIMENSION]);
      && ProperRun(ONE_SHARD, route, Creations(a, b))
      && Run(ONE_SHARD, route, Creations(a, b)) == created
      && SpecRun(SpecOf(ONE_SHARD), route, Creations(a, b)) == SpecOf(created)
  {
    RunExtends(ONE_SHARD, route, SpecOf(ONE_SHARD), [], CreateIndex(a, ONE_DIMENSION), CALM);
    RunExtends(ONE_SHARD, route, SpecOf(ONE_SHARD), [] + [Serve(CreateIndex(a, ONE_DIMENSION), CALM)],
      CreateIndex(b, ONE_DIMENSION), CALM);
  }

  function ClashEvents(a: string, x: string, b: string): seq<Event> {
    Creations(a, b) + [Serve(Request.Insert(a, x, map[], [1.0]), CALM)] +
      [Serve(Request.Insert(b, "", map[], [2.0]), CALM)]
  }

  /** On a single shard, storing into the longer name overwrites a vector of the shorter one. */
  lemma ClashRun(a: string, x: string, b: string, names: set<string>, route: Route)
    requires a in names && a != b && x != "" && VectorKey(a, x) == VectorKey(b, "")
    requires route(x) == Some(0) && route("") == Some(0)
    ensures ProperRun(ONE_SHARD, route, ClashEvents(a, x, b))
    ensures !Represents(Run(ONE_SHARD, route, ClashEvents(a, x, b)), route,
      SpecRun(SpecOf(ONE_SHARD), route, ClashEvents(a, x, b)), names)
  {
    var insertA, insertB := Request.Insert(a, x, map[], [1.0]), Request.Insert(b, "", map[], [2.0]);
    var r3 := Creations(a, b) + [Serve(insertA, CALM)];
    CreationsRun(a, b, route);
    var created := ONE_SHARD.(indexes := map[a := ONE_DIMENSION, b := ONE_DIMENSION]);
    CalmInsert(created, route, SpecOf(created), a, x, 1.0);
    RunExtends(ONE_SHARD, route, SpecOf(ONE_SHARD), Creations(a, b), insertA, CALM);
    var st, spec := Step(created, route, insertA, CALM), SpecStep(SpecOf(created), route, insertA, CALM);
    CalmInsert(st, route, spec, b, "", 2.0);
    RunExtends(ONE_SHARD, route, SpecOf(ONE_SHARD), r3, insertB, CALM);
    Overwritten(Step(st, route, insertB, CALM), route, SpecStep(spec, route, insertB, CALM), a, x, b, names,
      st.dbs[0], map[]);
  }

  lemma ClashBreaksRefinement(a: string, b: string, names: set<string>)
    requires a in names && b in names && a + ":" <= b
    ensures !AlwaysRefines(names)
  {
    var x := ClashingNames(a, b, "");
    assert |b| > |a|;
    var route: Route := _ => Some(0);
    ClashRun(a, x, b, names, route);
    assert UsesNames(ClashEvents(a, x, b), names);
  }

  lemma Overwritten(st: State, route: Route, spec: Spec, a: string, x: string, b: string, names: set<string>,
                    db: Db, table: Table)
    requires a in names && a != b && x != "" && VectorKey(a, x) == VectorKey(b, "")
    requires route(x) == Some(0) && 0 in st.dbs
    requires st.dbs[0] == StoreOne(db, b, StoredVector("", map[], 0, [2.0]))
    requires spec.table ==
      table[(a, x) := StoredVector(x, map[], 0, [1.0])][(b, "") := StoredVector("", map[], 0, [2.0])]
    ensures !Represents(st, route, spec, names)
  {
    assert Lookup(st.dbs[0], a, x) == Some(StoredVector("", map[], 0, [2.0]));
    assert Find(spec.table, a, x) == Some(StoredVector(x, map[], 0, [1.0]));
    assert Find(spec.table, a, x) != VisibleAt(st, route, a, x);
  }
}
