/**
 * The vector service as a state machine (internal/server/vector_service.go): what each request does to
 * the shard databases, the index table and the replicas. Any call to a shard or replica may be refused.
 */
module Service {
  import opened Common
  import opened Vectors
  import opened Store
  import R = Replication

  /** Where a key goes; None when routing fails. */
  type Route = string -> Option<int>

  datatype State = State(
    dbs: map<int, Db>,
    active: set<int>,
    indexes: map<string, VectorIndex>,
    repl: R.State)

  /** What the environment decides for one request: the shards that refuse, and each shard's refusing replicas. */
  datatype Env = Env(refuse: set<int>, refuseDelete: set<int>, replicaRefuse: int -> set<string>, now: int)

  /** A vector of a batch request, with the time at which the loop stamps it. */
  datatype Item = Item(id: string, metadata: map<string, string>, values: seq<real>, time: int)

  datatype Request =
    | Insert(index: string, id: string, metadata: map<string, string>, values: seq<real>)
    | Update(index: string, id: string, metadata: map<string, string>, values: seq<real>)
    | BatchInsert(index: string, items: seq<Item>, order: seq<int>)
    | Delete(index: string, id: string)
    | BatchDelete(index: string, ids: seq<string>, order: seq<int>)
    | CreateIndex(index: string, definition: VectorIndex)
    | DropIndex(index: string)

  // ----- Steps on one shard -----

  predicate Reachable(st: State, s: int) {
    s in st.active && s in st.dbs
  }

  /** The shard a key's request can be carried out on. */
  function Home(st: State, route: Route, id: string): Option<int> {
    if route(id).Some? && Reachable(st, route(id).value) then route(id) else None
  }

  function WriteAt(st: State, s: int, w: Write): State {
    if s in st.dbs then st.(dbs := st.dbs[s := Apply(st.dbs[s], w)]) else st
  }

  /** A write that succeeds on its shard is forwarded to the shard's replicas. */
  function Commit(st: State, s: int, cmd: R.Command, env: Env): State {
    WriteAt(st, s, cmd.Effect()).(repl := R.Replicate(st.repl, s, cmd, env.replicaRefuse(s), env.now))
  }

  predicate Accepts(st: State, s: int, env: Env) {
    Reachable(st, s) && s !in env.refuse
  }

  /** The shards of a batch that carry out their part. */
  function AcceptedIn(st: State, order: seq<int>, env: Env): set<int> {
    set s | s in order && Accepts(st, s, env)
  }

  /** One command per shard, in the given order; refused shards are skipped. */
  function CommitAll(st: State, order: seq<int>, cmd: int -> R.Command, env: Env): State {
    if order == [] then st
    else
      var before, s := CommitAll(st, order[..|order| - 1], cmd, env), order[|order| - 1];
      if Accepts(before, s, env) then Commit(before, s, cmd(s), env) else before
  }

  // ----- Grouping a batch -----

  function Stamped(item: Item): StoredVector {
    StoredVector(item.id, item.metadata, item.time, item.values)
  }

  /** The vectors of the right dimension, in request order. */
  function Fitting(items: seq<Item>, dimension: int): seq<StoredVector> {
    if items == [] then []
    else
      var last := items[|items| - 1];
      Fitting(items[..|items| - 1], dimension) + if |last.values| == dimension then [Stamped(last)] else []
  }

  /** The vectors routed to one shard, in request order. */
  function Group(vs: seq<StoredVector>, route: Route, s: int): seq<StoredVector> {
    if vs == [] then []
    else
      var last := vs[|vs| - 1];
      Group(vs[..|vs| - 1], route, s) + if route(last.id) == Some(s) then [last] else []
  }

  function IdGroup(ids: seq<string>, route: Route, s: int): seq<string> {
    if ids == [] then []
    else
      var last := ids[|ids| - 1];
      IdGroup(ids[..|ids| - 1], route, s) + if route(last) == Some(s) then [last] else []
  }

  /** The shards that receive a group. */
  function Targets(ids: seq<string>, route: Route): set<int> {
    set i | 0 <= i < |ids| && route(ids[i]).Some? :: route(ids[i]).value
  }

  function Ids(vs: seq<StoredVector>): (ids: seq<string>)
    ensures |ids| == |vs|
    ensures forall i :: 0 <= i < |vs| ==> ids[i] == vs[i].id
  {
    seq(|vs|, i requires 0 <= i < |vs| => vs[i].id)
  }

  function InsertCommand(index: string, vs: seq<StoredVector>, route: Route): int -> R.Command {
    s => R.BatchInsert(index, Group(vs, route, s))
  }

  function DeleteCommand(index: string, ids: seq<string>, route: Route): int -> R.Command {
    s => R.BatchDelete(index, IdGroup(ids, route, s))
  }

  // ----- What a batch insert reports -----

  datatype Tally = Tally(inserted: nat, failed: seq<string>)

  /** The ids the grouping loop already gives up: wrong dimension, or no shard for the key. */
  function EarlyFailures(items: seq<Item>, dimension: int, route: Route): seq<string> {
    if items == [] then []
    else
      var last := items[|items| - 1];
      EarlyFailures(items[..|items| - 1], dimension, route) +
        if |last.values| != dimension || route(last.id).None? then [last.id] else []
  }

  function TallyOne(tally: Tally, group: seq<StoredVector>, accepted: bool): Tally {
    if accepted then tally.(inserted := tally.inserted + |group|)
    else tally.(failed := tally.failed + Ids(group))
  }

  /** The report after handling the shards in the given order. */
  function TallyAll(st: State, order: seq<int>, vs: seq<StoredVector>, route: Route, env: Env, early: seq<string>)
    : Tally
  {
    if order == [] then Tally(0, early)
    else
      var s := order[|order| - 1];
      TallyOne(TallyAll(st, order[..|order| - 1], vs, route, env, early), Group(vs, route, s), Accepts(st, s, env))
  }

  /** How many ids a batch delete reports as deleted: all ids of every group that goes through. */
  function DeletedAll(st: State, order: seq<int>, ids: seq<string>, route: Route, env: Env): nat {
    if order == [] then 0
    else
      var s := order[|order| - 1];
      DeletedAll(st, order[..|order| - 1], ids, route, env) +
        if Accepts(st, s, env) then |IdGroup(ids, route, s)| else 0
  }

  // ----- Requests -----

  predicate Fits(st: State, index: string, values: seq<real>) {
    index in st.indexes && |values| == st.indexes[index].dimension
  }

  /** DropIndex empties the id set on every shard that carries out the call. */
  function DropEverywhere(st: State, index: string, env: Env): map<int, Db> {
    map s | s in st.dbs :: if Accepts(st, s, env) then Apply(st.dbs[s], Drop(index)) else st.dbs[s]
  }

  function Step(st: State, route: Route, req: Request, env: Env): State {
    match req
    case Insert(index, id, metadata, values) =>
      var home := Home(st, route, id);
      if values == [] || !Fits(st, index, values) || home.None? || home.value in env.refuse then st
      else Commit(st, home.value, R.Insert(index, StoredVector(id, metadata, env.now, values)), env)
    case Update(index, id, metadata, values) =>
      var home := Home(st, route, id);
      if !Fits(st, index, values) || home.None? then st
      else
        var cleared := if home.value in env.refuseDelete then st else WriteAt(st, home.value, Remove(index, id));
        if home.value in env.refuse then cleared
        else Commit(cleared, home.value, R.Insert(index, StoredVector(id, metadata, env.now, values)), env)
    case BatchInsert(index, items, order) =>
      if index !in st.indexes then st
      else CommitAll(st, order, InsertCommand(index, Fitting(items, st.indexes[index].dimension), route), env)
    case Delete(index, id) =>
      var home := Home(st, route, id);
      if home.None? || home.value in env.refuse then st
      else Commit(st, home.value, R.Delete(index, id), env)
    case BatchDelete(index, ids, order) =>
      CommitAll(st, order, DeleteCommand(index, ids, route), env)
    case CreateIndex(index, definition) =>
      if index in st.indexes || !definition.Validates() then st
      else st.(indexes := st.indexes[index := definition])
    case DropIndex(index) =>
      if index !in st.indexes then st
      else st.(dbs := DropEverywhere(st, index, env), indexes := st.indexes - {index})
  }

  /** The shard orders a batch may use: every shard with a group once, in any order. */
  ghost predicate ProperOrder(st: State, route: Route, req: Request) {
    match req
    case BatchInsert(index, items, order) =>
      index in st.indexes ==>
        NoDuplicates(order) &&
        ElementsOf(order) == Targets(Ids(Fitting(items, st.indexes[index].dimension)), route)
    case BatchDelete(index, ids, order) => NoDuplicates(order) && ElementsOf(order) == Targets(ids, route)
    case _ => true
  }

  // ----- Events: requests, health checks, and changes of the replica table -----

  datatype Event =
    | Serve(req: Request, env: Env)
    | CheckShards(answers: set<int>)
    | CheckReplicas(now: int, limits: R.Limits)
    | RegisterReplica(shard: int, node: R.Replica, connection: Option<Db>)
    | PromoteReplica(shard: int, address: string)
    | MarkReplica(shard: int, address: string)

  function Next(st: State, route: Route, e: Event): State {
    match e
    case Serve(req, env) => Step(st, route, req, env)
    case CheckShards(answers) => st.(active := st.dbs.Keys * answers)
    case CheckReplicas(now, limits) => st.(repl := R.CheckLag(st.repl, now, limits))
    case RegisterReplica(shard, node, connection) => st.(repl := R.Register(st.repl, shard, node, connection).0)
    case PromoteReplica(shard, address) => st.(repl := R.Promote(st.repl, shard, address).0)
    case MarkReplica(shard, address) => st.(repl := R.Mark(st.repl, shard, address))
  }

  function Run(st: State, route: Route, events: seq<Event>): State {
    if events == [] then st else Next(Run(st, route, events[..|events| - 1]), route, events[|events| - 1])
  }

  ghost predicate ProperRun(st: State, route: Route, events: seq<Event>) {
    events == [] ||
    (ProperRun(st, route, events[..|events| - 1]) &&
     (events[|events| - 1].Serve? ==>
        ProperOrder(Run(st, route, events[..|events| - 1]), route, events[|events| - 1].req)))
  }

  /** All databases empty, no index, any registered replicas. */
  ghost predicate Initial(st: State) {
    st.indexes == map[] && forall s :: s in st.dbs ==> st.dbs[s] == EMPTY_DB
  }

  // ----- Index names -----

  ghost predicate SafeNames(names: set<string>) {
    forall a, b :: a in names && b in names ==> !Clash(a, b)
  }

  predicate UsesNames(events: seq<Event>, names: set<string>) {
    forall i :: 0 <= i < |events| && events[i].Serve? ==> events[i].req.index in names
  }

  // ----- What CommitAll does to each database -----

  lemma {:induction false} CommitAllDbs(st: State, order: seq<int>, cmd: int -> R.Command, env: Env, s: int)
    requires NoDuplicates(order)
    ensures var after := CommitAll(st, order, cmd, env);
      && after.dbs.Keys == st.dbs.Keys && after.active == st.active && after.indexes == st.indexes
      && (s in st.dbs ==> (after.dbs[s] ==
           if s in order && Accepts(st, s, env) then Apply(st.dbs[s], cmd(s).Effect()) else st.dbs[s]))
  {
    if order != [] {
      var init, last := order[..|order| - 1], order[|order| - 1];
      CommitAllDbs(st, init, cmd, env, s);
      assert order == init + [last];
      assert last !in init;
    }
  }

  // ----- Grouping keeps the last vector of every id -----

  lemma {:induction false} GroupRouted(vs: seq<StoredVector>, route: Route, s: int, v: StoredVector)
    ensures v in Group(vs, route, s) <==> v in vs && route(v.id) == Some(s)
  {
    if vs != [] {
      GroupRouted(vs[..|vs| - 1], route, s, v);
      assert vs == vs[..|vs| - 1] + [vs[|vs| - 1]];
    }
  }

  lemma {:induction false} GroupKeepsLast(vs: seq<StoredVector>, route: Route, s: int, e: string)
    ensures LastWith(Group(vs, route, s), e) == if route(e) == Some(s) then LastWith(vs, e) else None
  {
    if vs != [] {
      var init, last := vs[..|vs| - 1], vs[|vs| - 1];
      GroupKeepsLast(init, route, s, e);
      var g := Group(init, route, s);
      assert (g + [last])[..|g + [last]| - 1] == g;
      assert g + [] == g;
    }
  }

  lemma {:induction false} IdGroupRouted(ids: seq<string>, route: Route, s: int, e: string)
    ensures e in IdGroup(ids, route, s) <==> e in ids && route(e) == Some(s)
  {
    if ids != [] {
      IdGroupRouted(ids[..|ids| - 1], route, s, e);
      assert ids == ids[..|ids| - 1] + [ids[|ids| - 1]];
    }
  }

  lemma {:induction false} FittingFits(items: seq<Item>, dimension: int, v: StoredVector)
    requires v in Fitting(items, dimension)
    ensures |v.values| == dimension
  {
    var init, last := items[..|items| - 1], items[|items| - 1];
    if v in Fitting(init, dimension) {
      FittingFits(init, dimension, v);
    }
  }
}
