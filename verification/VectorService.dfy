/**
 * The service object (internal/server/vector_service.go): its methods run against the shard manager and
 * the replication manager and are proved to take exactly the steps of module Service.
 */
module VectorService {
  import opened Common
  import opened Vectors
  import opened Store
  import opened TopK
  import opened Adapter
  import opened Service
  import opened Refinement
  import opened Search
  import opened Invariants
  import R = Replication
  import RM = ReplicationManager
  import Ring = ConsistentHash
  import S = ShardManager

  /** The vector message of a request. */
  datatype Payload = Payload(id: string, metadata: map<string, string>, values: seq<real>)

  /** What the service asks of one shard. */
  datatype ShardCall = Forwarded(cmd: R.Command) | DropCall(index: string)
  {
    function Effect(): Write {
      match this
      case Forwarded(cmd) => cmd.Effect()
      case DropCall(index) => Drop(index)
    }
  }

  /** The key's shard is usable and carries out the store call. */
  predicate GoesThrough(st: State, route: Route, id: string, env: Env) {
    Home(st, route, id).Some? && Home(st, route, id).value !in env.refuse
  }

  // ----- What a reported success means -----

  /** An insert that reports success is visible, with what the request says; one that does not changes nothing. */
  lemma InsertReports(st: State, route: Route, index: string, id: string, metadata: map<string, string>,
                      values: seq<real>, env: Env)
    ensures var after := Step(st, route, Request.Insert(index, id, metadata, values), env);
      if values != [] && Fits(st, index, values) && GoesThrough(st, route, id, env)
      then VisibleAt(after, route, index, id) == Some(StoredVector(id, metadata, env.now, values))
      else after == st
  {
    StoredIsVisible(st, route, index, StoredVector(id, metadata, env.now, values), env);
  }

  lemma UpdateReports(st: State, route: Route, index: string, id: string, metadata: map<string, string>,
                      values: seq<real>, env: Env)
    ensures var after := Step(st, route, Request.Update(index, id, metadata, values), env);
      Fits(st, index, values) && GoesThrough(st, route, id, env) ==>
        VisibleAt(after, route, index, id) == Some(StoredVector(id, metadata, env.now, values))
  {
    if Fits(st, index, values) && GoesThrough(st, route, id, env) {
      var s: int := route(id).value;
      var cleared := if s in env.refuseDelete then st else WriteAt(st, s, Remove(index, id));
      StoredIsVisible(cleared, route, index, StoredVector(id, metadata, env.now, values), env);
    }
  }

  lemma DeleteReports(st: State, route: Route, index: string, id: string, env: Env)
    ensures var after := Step(st, route, Request.Delete(index, id), env);
      if GoesThrough(st, route, id, env) then VisibleAt(after, route, index, id) == None else after == st
  {
    if GoesThrough(st, route, id, env) {
      DeleteOneEffect(st.dbs[route(id).value], index, id, index, id);
    }
  }

  lemma StoredIsVisible(st: State, route: Route, index: string, v: StoredVector, env: Env)
    ensures Home(st, route, v.id).Some? ==>
      VisibleAt(Commit(st, route(v.id).value, R.Insert(index, v), env), route, index, v.id) == Some(v)
  {
    if Home(st, route, v.id).Some? {
      StoreAllEffect(st.dbs[route(v.id).value], index, [v], index, v.id);
    }
  }

  class Server {
    const shards: S.Manager
    const replication: RM.Manager
    var indexes: map<string, VectorIndex>

    /** The shards' databases and the replicas' stores are different databases. */
    ghost predicate Valid()
      reads shards, shards.ring, replication`replicas, replication`adapters
    {
      shards.Valid() && replication.Valid() && shards.shardToAdapter.Values !! replication.adapters.Values
    }

    ghost function State(): State
      reads `indexes, shards`shards, shards`shardToAdapter, shards.shardToAdapter.Values
      reads replication, replication.Nodes(), replication.adapters.Values, replication.log
    {
      Service.State(shards.Dbs(), shards.ActiveShards(), indexes, replication.State())
    }

    ghost function Routing(): Route
      reads shards`nodeToShards, shards.ring
    {
      var layout, hash := shards.LayoutNow(), shards.ring.hash;
      id => S.RouteOf(layout, hash, id)
    }

    constructor (shards: S.Manager, replication: RM.Manager)
      requires shards.Valid() && replication.Valid()
      requires shards.shardToAdapter.Values !! replication.adapters.Values
      ensures this.shards == shards && this.replication == replication
      ensures Valid() && State() ==
        Service.State(shards.Dbs(), shards.ActiveShards(), map[], replication.State())
    {
      this.shards, this.replication := shards, replication;
      indexes := map[];
    }

    /** The state from its parts. */
    lemma StateIs(expected: State)
      requires shards.Dbs() == expected.dbs && shards.ActiveShards() == expected.active
      requires indexes == expected.indexes && replication.State() == expected.repl
      ensures State() == expected
    {
    }

    // ----- Health checks -----

    /** One health check of the shards; answers are the shards whose count query succeeds. */
    method CheckShards(answers: set<int>)
      requires Valid()
      modifies shards`shards
      ensures Valid() && State() == Next(old(State()), old(Routing()), Event.CheckShards(answers))
    {
      ghost var before := State();
      Recheck(answers);
      shards.DbsAre(before.dbs);
      StateIs(before.(active := before.dbs.Keys * answers));
    }

    /** The check leaves databases and replicas alone. */
    method Recheck(answers: set<int>)
      requires Valid()
      modifies shards`shards
      ensures Valid() && shards.ActiveShards() == shards.shardToAdapter.Keys * answers
      ensures replication.State() == old(replication.State())
    {
      shards.Check(answers);
    }

    /** One lag check of the replicas. */
    method CheckReplicas(now: int, limits: R.Limits)
      requires Valid()
      modifies replication.Nodes()
      ensures Valid() && State() == Next(old(State()), old(Routing()), Event.CheckReplicas(now, limits))
    {
      ghost var before := State();
      replication.CheckReplicaHealth(now, limits);
      shards.DbsAre(before.dbs);
      StateIs(before.(repl := R.CheckLag(before.repl, now, limits)));
    }

    // ----- Changes of the replica table -----

    /** The new replica's database is none of the shards' databases. */
    method RegisterReplica(shard: int, node: RM.ReplicaNode, connection: Option<RedisAdapter>) returns (ok: bool)
      requires Valid() && node.shard == shard
      requires connection.Some? ==>
        connection.value.address == node.address && connection.value !in shards.shardToAdapter.Values
      modifies replication
      ensures Valid()
      ensures State() == Next(old(State()), old(Routing()), Event.RegisterReplica(shard, old(node.Value()),
        if connection.Some? then Some(old(connection.value.State())) else None))
      ensures ok == R.Admits(old(State().repl), shard, node.address, connection.Some?)
    {
      ghost var before := State();
      ghost var stored := if connection.Some? then Some(connection.value.State()) else None;
      ghost var value := node.Value();
      ok := RegisterOn(shard, node, connection, before, value, stored);
    }

    method RegisterOn(shard: int, node: RM.ReplicaNode, connection: Option<RedisAdapter>, ghost before: State,
                      ghost value: R.Replica, ghost stored: Option<Db>)
      returns (ok: bool)
      requires Valid() && node.shard == shard && State() == before && node.Value() == value
      requires connection.Some? ==>
        connection.value.address == node.address && connection.value !in shards.shardToAdapter.Values
      requires stored == if connection.Some? then Some(connection.value.State()) else None
      modifies replication
      ensures Valid() && ok == R.Admits(before.repl, shard, node.address, connection.Some?)
      ensures State() == before.(repl := R.Register(before.repl, shard, value, stored).0)
    {
      ok := Register(shard, node, connection);
      shards.DbsAre(before.dbs);
      StateIs(before.(repl := R.Register(before.repl, shard, value, stored).0));
    }

    /** The registration leaves the shards' side alone. */
    method Register(shard: int, node: RM.ReplicaNode, connection: Option<RedisAdapter>) returns (ok: bool)
      requires Valid() && node.shard == shard
      requires connection.Some? ==>
        connection.value.address == node.address && connection.value !in shards.shardToAdapter.Values
      modifies replication
      ensures Valid() && ok == R.Admits(old(replication.State()), shard, node.address, connection.Some?)
      ensures replication.State() == R.Register(old(replication.State()), shard, old(node.Value()),
        if connection.Some? then Some(old(connection.value.State())) else None).0
      ensures forall t :: t in shards.shardToAdapter ==>
        shards.shardToAdapter[t].State() == old(shards.shardToAdapter[t].State())
    {
      ok := replication.RegisterReplica(shard, node, connection);
    }

    method PromoteReplica(shard: int, address: string) returns (ok: bool)
      requires Valid()
      modifies replication`primaryNodes, replication.Nodes()
      ensures Valid() && State() == Next(old(State()), old(Routing()), Event.PromoteReplica(shard, address))
      ensures ok == R.Promotable(old(replication.State()), shard, address)
    {
      ghost var before := State();
      ok := Promote(shard, address);
      shards.DbsAre(before.dbs);
      StateIs(before.(repl := R.Promote(before.repl, shard, address).0));
    }

    /** The promotion leaves the shards' side alone. */
    method Promote(shard: int, address: string) returns (ok: bool)
      requires Valid()
      modifies replication`primaryNodes, replication.Nodes()
      ensures Valid() && replication.State() == R.Promote(old(replication.State()), shard, address).0
      ensures ok == R.Promotable(old(replication.State()), shard, address)
      ensures forall t :: t in shards.shardToAdapter ==>
        shards.shardToAdapter[t].State() == old(shards.shardToAdapter[t].State())
    {
      ok := replication.PromoteReplica(shard, address);
    }

    /** A mark that comes on its own, after the read that led to it. */
    method MarkReplica(shard: int, address: string)
      requires Valid()
      modifies replication.Nodes()
      ensures Valid() && State() == Next(old(State()), old(Routing()), Event.MarkReplica(shard, address))
    {
      ghost var before := State();
      Mark(shard, address);
      shards.DbsAre(before.dbs);
      StateIs(before.(repl := R.Mark(before.repl, shard, address)));
    }

    /** The mark leaves the shards' side alone. */
    method Mark(shard: int, address: string)
      requires Valid()
      modifies replication.Nodes()
      ensures Valid() && replication.State() == R.Mark(old(replication.State()), shard, address)
      ensures forall t :: t in shards.shardToAdapter ==>
        shards.shardToAdapter[t].State() == old(shards.shardToAdapter[t].State())
    {
      replication.MarkReplicaFailed(shard, address);
    }

    // ----- One command to one shard -----

    /** Routing and adapter lookup, as every single-key request does them. */
    method LookUp(id: string) returns (shard: Option<int>)
      requires Valid()
      ensures Valid() && shard == Home(old(State()), old(Routing()), id)
      ensures shard.Some? ==> shard.value in shards.shardToAdapter
    {
      shard := shards.GetShardForKey(id);
      if shard.Some? {
        var adapter := shards.GetShardAdapter(shard.value);
        if adapter.None? {
          shard := None;
        }
      }
    }

    /** Looking up changes nothing. */
    method Locate(id: string) returns (shard: Option<int>)
      requires Valid()
      ensures Valid() && State() == old(State()) && Routing() == old(Routing())
      ensures shard == Home(State(), Routing(), id)
      ensures shard.Some? ==> shard.value in shards.shardToAdapter
    {
      shard := LookUp(id);
    }

    /** The call changes the database of its own shard only: databases have different numbers. */
    method SendToAdapter(s: int, call: ShardCall, up: bool) returns (ok: bool)
      requires Valid() && s in shards.shardToAdapter
      modifies shards.shardToAdapter[s]
      ensures Valid() && ok == up
      ensures forall t :: t in shards.shardToAdapter ==>
        shards.shardToAdapter[t].State() ==
          if t == s && up then Apply(old(shards.shardToAdapter[t].State()), call.Effect())
          else old(shards.shardToAdapter[t].State())
      ensures replication.State() == old(replication.State())
    {
      ok := Execute(shards.shardToAdapter[s], call, up);
      forall t | t in shards.shardToAdapter && t != s
        ensures shards.shardToAdapter[t].State() == old(shards.shardToAdapter[t].State())
      {
        assert shards.shardToAdapter[t].database != shards.shardToAdapter[s].database;
      }
    }

    method SendToShard(s: int, call: ShardCall, up: bool) returns (ok: bool)
      requires Valid() && s in shards.shardToAdapter
      modifies shards.shardToAdapter[s]
      ensures Valid() && ok == up
      ensures shards.Dbs() == if up then old(shards.Dbs())[s := Apply(old(shards.Dbs())[s], call.Effect())]
        else old(shards.Dbs())
      ensures replication.State() == old(replication.State())
      ensures shards.ActiveShards() == old(shards.ActiveShards())
    {
      ghost var before := shards.Dbs();
      ok := SendToAdapter(s, call, up);
      shards.DbsAre(if up then before[s := Apply(before[s], call.Effect())] else before);
    }

    /** A call to a shard that is not forwarded. */
    method SendOnly(s: int, call: ShardCall, up: bool) returns (ok: bool)
      requires Valid() && Reachable(State(), s)
      modifies shards.shardToAdapter.Values
      ensures Valid() && ok == up
      ensures State() == if up then WriteAt(old(State()), s, call.Effect()) else old(State())
    {
      ghost var before := State();
      ok := SendToShard(s, call, up);
      StateIs(if up then WriteAt(before, s, call.Effect()) else before);
    }

    method SetIndexes(table: map<string, VectorIndex>)
      requires Valid()
      modifies `indexes
      ensures Valid() && State() == old(State()).(indexes := table)
    {
      ghost var before := State();
      indexes := table;
      StateIs(before.(indexes := table));
    }

    static method Execute(adapter: RedisAdapter, call: ShardCall, up: bool) returns (ok: bool)
      modifies adapter
      ensures ok == up
      ensures adapter.State() == if up then Apply(old(adapter.State()), call.Effect()) else old(adapter.State())
    {
      match call
      case Forwarded(cmd) => ok := RM.Manager.Send(adapter, cmd, up);
      case DropCall(index) => ok := adapter.DropIndex(index, up);
    }

    method ForwardToReplicas(s: int, cmd: R.Command, env: Env)
      requires Valid()
      modifies replication.Nodes(), replication.adapters.Values, replication.log
      ensures Valid()
      ensures forall t :: t in shards.shardToAdapter ==>
        shards.shardToAdapter[t].State() == old(shards.shardToAdapter[t].State())
      ensures replication.State() == R.Replicate(old(replication.State()), s, cmd, env.replicaRefuse(s), env.now)
    {
      replication.Replicate(s, cmd, env.replicaRefuse(s), env.now);
    }

    method Forward(s: int, cmd: R.Command, env: Env)
      requires Valid()
      modifies replication.Nodes(), replication.adapters.Values, replication.log
      ensures Valid() && shards.Dbs() == old(shards.Dbs()) && shards.ActiveShards() == old(shards.ActiveShards())
      ensures replication.State() == R.Replicate(old(replication.State()), s, cmd, env.replicaRefuse(s), env.now)
    {
      ghost var dbs := shards.Dbs();
      ForwardToReplicas(s, cmd, env);
      shards.DbsAre(dbs);
    }

    /** The forwarding of a write, on the whole state. */
    method ForwardOn(s: int, cmd: R.Command, env: Env)
      requires Valid()
      modifies replication.Nodes(), replication.adapters.Values, replication.log
      ensures Valid()
      ensures State() == old(State()).(repl := R.Replicate(old(State()).repl, s, cmd, env.replicaRefuse(s), env.now))
    {
      ghost var before := State();
      Forward(s, cmd, env);
      StateIs(before.(repl := R.Replicate(before.repl, s, cmd, env.replicaRefuse(s), env.now)));
    }

    /** A write to a usable shard, forwarded to its replicas when it succeeds. */
    method SendAndForward(s: int, cmd: R.Command, env: Env) returns (ok: bool)
      requires Valid() && Reachable(State(), s)
      modifies shards.shardToAdapter.Values, replication.Nodes(), replication.adapters.Values, replication.log
      ensures Valid() && ok == (s !in env.refuse)
      ensures State() == (if ok then Commit(old(State()), s, cmd, env) else old(State()))
    {
      ok := SendOnly(s, Forwarded(cmd), s !in env.refuse);
      if ok {
        ForwardOn(s, cmd, env);
      }
    }

    // ----- Requests on one vector -----

    method Insert(index: string, vector: Option<Payload>, env: Env) returns (success: bool)
      requires Valid()
      modifies shards.shardToAdapter.Values, replication.Nodes(), replication.adapters.Values, replication.log
      ensures Valid()
      ensures vector.None? ==> !success && State() == old(State())
      ensures vector.Some? ==> State() == Step(old(State()), old(Routing()),
        Request.Insert(index, vector.value.id, vector.value.metadata, vector.value.values), env)
      ensures success <==>
        (vector.Some? && vector.value.values != [] && Fits(old(State()), index, vector.value.values) &&
         GoesThrough(old(State()), old(Routing()), vector.value.id, env))
    {
      if vector.None? || |vector.value.values| == 0 {
        return false;
      }
      var Payload(id, metadata, values) := vector.value;
      if index !in indexes {
        return false;
      }
      if |values| != indexes[index].dimension {
        return false;
      }
      success := InsertFitting(index, StoredVector(id, metadata, env.now, values), env, State(), Routing());
    }

    /** The part of an insert behind the checks of the request and the index. */
    method InsertFitting(index: string, v: StoredVector, env: Env, ghost st: State, ghost route: Route)
      returns (success: bool)
      requires Valid() && State() == st && Routing() == route
      requires v.values != [] && Fits(st, index, v.values) && v.timestamp == env.now
      modifies shards.shardToAdapter.Values, replication.Nodes(), replication.adapters.Values, replication.log
      ensures Valid()
      ensures State() == Step(st, route, Request.Insert(index, v.id, v.metadata, v.values), env)
      ensures success <==> GoesThrough(st, route, v.id, env)
    {
      var home := Locate(v.id);
      if home.None? {
        return false;
      }
      success := SendAndForward(home.value, R.Insert(index, v), env);
    }

    method Update(index: string, id: string, metadata: map<string, string>, values: seq<real>, env: Env)
      returns (success: bool)
      requires Valid()
      modifies shards.shardToAdapter.Values, replication.Nodes(), replication.adapters.Values, replication.log
      ensures Valid()
      ensures State() == Step(old(State()), old(Routing()), Request.Update(index, id, metadata, values), env)
      ensures success <==> Fits(old(State()), index, values) && GoesThrough(old(State()), old(Routing()), id, env)
    {
      if index !in indexes {
        return false;
      }
      if |values| != indexes[index].dimension {
        return false;
      }
      success := UpdateFitting(index, StoredVector(id, metadata, env.now, values), env, State(), Routing());
    }

    /** The part of an update behind the checks of the index. */
    method UpdateFitting(index: string, v: StoredVector, env: Env, ghost st: State, ghost route: Route)
      returns (success: bool)
      requires Valid() && State() == st && Routing() == route
      requires Fits(st, index, v.values) && v.timestamp == env.now
      modifies shards.shardToAdapter.Values, replication.Nodes(), replication.adapters.Values, replication.log
      ensures Valid()
      ensures State() == Step(st, route, Request.Update(index, v.id, v.metadata, v.values), env)
      ensures success <==> GoesThrough(st, route, v.id, env)
    {
      var home := Locate(v.id);
      if home.None? {
        return false;
      }
      success := Replace(home.value, index, v, env);
    }

    /** Delete on the shard alone, its failure ignored, then store and forward. */
    method Replace(s: int, index: string, v: StoredVector, env: Env) returns (ok: bool)
      requires Valid() && Reachable(State(), s)
      modifies shards.shardToAdapter.Values, replication.Nodes(), replication.adapters.Values, replication.log
      ensures Valid() && ok == (s !in env.refuse)
      ensures
        var cleared := if s in env.refuseDelete then old(State()) else WriteAt(old(State()), s, Remove(index, v.id));
        State() == if ok then Commit(cleared, s, R.Insert(index, v), env) else cleared
    {
      ghost var before := State();
      var deleted := SendOnly(s, Forwarded(R.Delete(index, v.id)), s !in env.refuseDelete);
      assert State() == if deleted then WriteAt(before, s, Remove(index, v.id)) else before;
      ok := SendAndForward(s, R.Insert(index, v), env);
    }

    method Delete(index: string, id: string, env: Env) returns (success: bool)
      requires Valid()
      modifies shards.shardToAdapter.Values, replication.Nodes(), replication.adapters.Values, replication.log
      ensures Valid()
      ensures State() == Step(old(State()), old(Routing()), Request.Delete(index, id), env)
      ensures success <==> GoesThrough(old(State()), old(Routing()), id, env)
    {
      var home := Locate(id);
      if home.None? {
        return false;
      }
      success := SendAndForward(home.value, R.Delete(index, id), env);
    }

    method Get(index: string, id: string) returns (vector: Option<StoredVector>)
      requires Valid()
      ensures var home := Home(State(), Routing(), id);
        vector == if home.Some? then Lookup(State().dbs[home.value], index, id) else None
    {
      var home := Locate(id);
      if home.None? {
        return None;
      }
      vector := shards.shardToAdapter[home.value].GetVector(index, id);
    }

    // ----- Index requests -----

    method CreateIndex(index: string, dimension: int, metric: string, shardCount: int, replicaCount: int,
                       options: map<string, string>, env: Env)
      returns (success: bool)
      requires Valid()
      modifies `indexes
      ensures Valid()
      ensures var definition := VectorIndex(index, dimension, metric, shardCount, replicaCount, options);
        && success == (index !in old(indexes) && definition.Validates())
        && State() == Step(old(State()), old(Routing()), Request.CreateIndex(index, definition), env)
    {
      if index in indexes {
        return false;
      }
      var definition := VectorIndex(index, dimension, metric, shardCount, replicaCount, options);
      if !definition.Validates() {
        return false;
      }
      SetIndexes(indexes[index := definition]);
      return true;
    }

    method DropIndex(index: string, env: Env) returns (success: bool)
      requires Valid()
      modifies `indexes, shards.shardToAdapter.Values
      ensures Valid()
      ensures success <==> index in old(indexes)
      ensures State() == Step(old(State()), old(Routing()), Request.DropIndex(index), env)
    {
      if index !in indexes {
        return false;
      }
      DropOnShards(index, env);
      SetIndexes(indexes - {index});
      return true;
    }

    method DropOnShards(index: string, env: Env)
      requires Valid()
      modifies shards.shardToAdapter.Values
      ensures Valid() && State() == old(State()).(dbs := DropEverywhere(old(State()), index, env))
    {
      ghost var before := State();
      var rest := shards.GetAllShards();
      while rest != {}
        invariant Valid() && DroppedOutside(before, State(), rest, index, env)
        decreases |rest|
      {
        rest := DropNextShard(rest, index, env, before);
      }
      DroppedAll(before, State(), index, env);
    }

    /** One turn of the loop over all shards. */
    method DropNextShard(rest: set<int>, index: string, env: Env, ghost before: State) returns (rest': set<int>)
      requires Valid() && rest != {} && DroppedOutside(before, State(), rest, index, env)
      modifies shards.shardToAdapter.Values
      ensures Valid() && DroppedOutside(before, State(), rest', index, env) && |rest'| < |rest|
    {
      ghost var mid := State();
      ghost var some := MemberOf(rest);
      var s :| s in rest;
      rest' := rest - {s};
      DropOne(s, index, env);
      DropNext(before, mid, State(), rest, s, index, env);
    }

    method DropOne(s: int, index: string, env: Env)
      requires Valid()
      modifies shards.shardToAdapter.Values
      ensures Valid()
      ensures State() == if Accepts(old(State()), s, env) then WriteAt(old(State()), s, Drop(index)) else old(State())
    {
      ghost var before := State();
      var adapter := shards.GetShardAdapter(s);
      assert State() == before;
      if adapter.Some? {
        var ok := SendOnly(s, DropCall(index), s !in env.refuse);
      }
    }

    /** All shards but those in rest have handled the drop. */
    static ghost predicate DroppedOutside(before: State, mid: State, rest: set<int>, index: string, env: Env) {
      && mid.active == before.active && mid.indexes == before.indexes && mid.repl == before.repl
      && mid.dbs.Keys == before.dbs.Keys
      && forall s :: s in mid.dbs ==>
           (mid.dbs[s] == if s !in rest then DropEverywhere(before, index, env)[s] else before.dbs[s])
    }

    static lemma DropNext(before: State, mid: State, after: State, rest: set<int>, s: int, index: string, env: Env)
      requires DroppedOutside(before, mid, rest, index, env) && s in rest
      requires after == if Accepts(mid, s, env) then WriteAt(mid, s, Drop(index)) else mid
      ensures DroppedOutside(before, after, rest - {s}, index, env)
    {
    }

    static lemma DroppedAll(before: State, after: State, index: string, env: Env)
      requires DroppedOutside(before, after, {}, index, env)
      ensures after == before.(dbs := DropEverywhere(before, index, env))
    {
    }

    // ----- Batches -----

    /** The grouping loop of a batch insert. */
    method GroupItems(dimension: int, items: seq<Item>)
      returns (groups: map<int, seq<StoredVector>>, failed: seq<string>)
      requires Valid()
      ensures groups == GroupsOf(Fitting(items, dimension), Routing())
      ensures failed == EarlyFailures(items, dimension, Routing())
    {
      groups, failed := map[], [];
      for i := 0 to |items|
        invariant groups == GroupsOf(Fitting(items[..i], dimension), Routing())
        invariant failed == EarlyFailures(items[..i], dimension, Routing())
      {
        groups, failed := GroupItem(dimension, items[..i], items[i], groups, failed);
        assert items[..i + 1] == items[..i] + [items[i]];
      }
      assert items[..|items|] == items;
    }

    method GroupItem(dimension: int, ghost earlier: seq<Item>, item: Item, groups: map<int, seq<StoredVector>>,
                     failed: seq<string>)
      returns (groups': map<int, seq<StoredVector>>, failed': seq<string>)
      requires Valid()
      requires groups == GroupsOf(Fitting(earlier, dimension), Routing())
      requires failed == EarlyFailures(earlier, dimension, Routing())
      ensures groups' == GroupsOf(Fitting(earlier + [item], dimension), Routing())
      ensures failed' == EarlyFailures(earlier + [item], dimension, Routing())
    {
      assert (earlier + [item])[..|earlier + [item]| - 1] == earlier;
      groups', failed' := groups, failed;
      if |item.values| != dimension {
        failed' := failed + [item.id];
        assert Fitting(earlier + [item], dimension) == Fitting(earlier, dimension);
      } else {
        var shard := shards.GetShardForKey(item.id);
        GroupsExtend(Fitting(earlier, dimension), Stamped(item), Routing());
        if shard.None? {
          failed' := failed + [item.id];
        } else {
          groups' := AddToGroup(groups, shard.value, Stamped(item));
        }
      }
    }

    /** One group of a batch: adapter lookup, write, forward. */
    method HandleGroup(s: int, cmd: R.Command, env: Env) returns (ok: bool)
      requires Valid()
      modifies shards.shardToAdapter.Values, replication.Nodes(), replication.adapters.Values, replication.log
      ensures Valid() && ok == Accepts(old(State()), s, env)
      ensures State() == if ok then Commit(old(State()), s, cmd, env) else old(State())
    {
      var adapter := shards.GetShardAdapter(s);
      if adapter.None? {
        return false;
      }
      ok := SendAndForward(s, cmd, env);
    }

    /** The shards are handled in the order the map iteration happens to deliver them. */
    method BatchInsert(index: string, items: seq<Item>, env: Env)
      returns (success: bool, inserted: nat, failed: seq<string>, ghost order: seq<int>)
      requires Valid()
      modifies shards.shardToAdapter.Values, replication.Nodes(), replication.adapters.Values, replication.log
      ensures Valid()
      ensures index !in indexes ==> !success && State() == old(State())
      ensures index in indexes ==>
        var vs := Fitting(items, indexes[index].dimension);
        var early := EarlyFailures(items, indexes[index].dimension, old(Routing()));
        && ProperOrder(old(State()), old(Routing()), Request.BatchInsert(index, items, order))
        && State() == Step(old(State()), old(Routing()), Request.BatchInsert(index, items, order), env)
        && Tally(inserted, failed) == TallyAll(old(State()), order, vs, old(Routing()), env, early)
        && success == (inserted > 0)
    {
      if index !in indexes {
        return false, 0, [], [];
      }
      inserted, failed, order := InsertAll(index, indexes[index].dimension, items, env);
      success := inserted > 0;
    }

    /** Group, then handle the groups. */
    method InsertAll(index: string, dimension: int, items: seq<Item>, env: Env)
      returns (inserted: nat, failed: seq<string>, ghost order: seq<int>)
      requires Valid()
      modifies shards.shardToAdapter.Values, replication.Nodes(), replication.adapters.Values, replication.log
      ensures Valid() && NoDuplicates(order)
      ensures ElementsOf(order) == Targets(Ids(Fitting(items, dimension)), old(Routing()))
      ensures State() ==
        CommitAll(old(State()), order, InsertCommand(index, Fitting(items, dimension), old(Routing())), env)
      ensures Tally(inserted, failed) == TallyAll(old(State()), order, Fitting(items, dimension), old(Routing()), env,
        EarlyFailures(items, dimension, old(Routing())))
    {
      ghost var st, route := State(), Routing();
      var groups, early := GroupItems(dimension, items);
      assert State() == st && Routing() == route;
      inserted, failed, order := HandleInsertGroups(index, Fitting(items, dimension), route, groups, early, env);
    }

    method HandleInsertGroups(index: string, ghost vs: seq<StoredVector>, ghost route: Route,
                              groups: map<int, seq<StoredVector>>, early: seq<string>, env: Env)
      returns (inserted: nat, failed: seq<string>, ghost order: seq<int>)
      requires Valid() && groups == GroupsOf(vs, route)
      modifies shards.shardToAdapter.Values, replication.Nodes(), replication.adapters.Values, replication.log
      ensures Valid() && NoDuplicates(order) && ElementsOf(order) == Targets(Ids(vs), route)
      ensures State() == CommitAll(old(State()), order, InsertCommand(index, vs, route), env)
      ensures Tally(inserted, failed) == TallyAll(old(State()), order, vs, route, env, early)
    {
      ghost var before := State();
      var rest := groups.Keys;
      inserted, failed, order := 0, early, [];
      while rest != {}
        invariant Valid() && Handled(before, State(), order, groups.Keys, rest, InsertCommand(index, vs, route), env)
        invariant Tally(inserted, failed) == TallyAll(before, order, vs, route, env, early)
        decreases rest
      {
        ghost var some := MemberOf(rest);
        var s :| s in rest;
        inserted, failed := InsertGroup(s, index, vs, route, groups, rest, env, inserted, failed, early, order, before);
        rest, order := rest - {s}, order + [s];
      }
      AllHandled(before, State(), order, groups.Keys, InsertCommand(index, vs, route), env);
    }

    /** One turn of the loop over the groups. */
    method InsertGroup(s: int, index: string, ghost vs: seq<StoredVector>, ghost route: Route,
                       groups: map<int, seq<StoredVector>>, ghost rest: set<int>, env: Env, inserted: nat,
                       failed: seq<string>, ghost early: seq<string>, ghost order: seq<int>, ghost before: State)
      returns (inserted': nat, failed': seq<string>)
      requires Valid() && groups == GroupsOf(vs, route) && s in rest
      requires Handled(before, State(), order, groups.Keys, rest, InsertCommand(index, vs, route), env)
      requires Tally(inserted, failed) == TallyAll(before, order, vs, route, env, early)
      modifies shards.shardToAdapter.Values, replication.Nodes(), replication.adapters.Values, replication.log
      ensures Valid()
      ensures Handled(before, State(), order + [s], groups.Keys, rest - {s}, InsertCommand(index, vs, route), env)
      ensures Tally(inserted', failed') == TallyAll(before, order + [s], vs, route, env, early)
    {
      ghost var mid := State();
      inserted', failed' := inserted, failed;
      var ok := HandleGroup(s, R.BatchInsert(index, groups[s]), env);
      HandledNext(before, mid, State(), ok, order, groups.Keys, rest, s, InsertCommand(index, vs, route), env);
      TallyNext(before, order, s, vs, route, env, early);
      if ok {
        inserted' := inserted + |groups[s]|;
      } else {
        failed' := failed + Ids(groups[s]);
      }
    }

    method BatchDelete(index: string, ids: seq<string>, env: Env)
      returns (success: bool, deleted: nat, ghost order: seq<int>)
      requires Valid()
      modifies shards.shardToAdapter.Values, replication.Nodes(), replication.adapters.Values, replication.log
      ensures Valid()
      ensures ProperOrder(old(State()), old(Routing()), Request.BatchDelete(index, ids, order))
      ensures State() == Step(old(State()), old(Routing()), Request.BatchDelete(index, ids, order), env)
      ensures deleted == DeletedAll(old(State()), order, ids, old(Routing()), env) && success == (deleted > 0)
    {
      ghost var st, route := State(), Routing();
      var groups := GroupIds(ids);
      assert State() == st && Routing() == route;
      deleted, order := HandleDeleteGroups(index, ids, route, groups, env);
      success := deleted > 0;
    }

    method HandleDeleteGroups(index: string, ghost ids: seq<string>, ghost route: Route,
                              groups: map<int, seq<string>>, env: Env)
      returns (deleted: nat, ghost order: seq<int>)
      requires Valid() && groups == IdGroupsOf(ids, route)
      modifies shards.shardToAdapter.Values, replication.Nodes(), replication.adapters.Values, replication.log
      ensures Valid() && NoDuplicates(order) && ElementsOf(order) == Targets(ids, route)
      ensures State() == CommitAll(old(State()), order, DeleteCommand(index, ids, route), env)
      ensures deleted == DeletedAll(old(State()), order, ids, route, env)
    {
      ghost var before := State();
      var rest := groups.Keys;
      deleted, order := 0, [];
      while rest != {}
        invariant Valid() && Handled(before, State(), order, groups.Keys, rest, DeleteCommand(index, ids, route), env)
        invariant deleted == DeletedAll(before, order, ids, route, env)
        decreases rest
      {
        ghost var some := MemberOf(rest);
        var s :| s in rest;
        deleted := DeleteGroup(s, index, ids, route, groups, rest, env, deleted, order, before);
        rest, order := rest - {s}, order + [s];
      }
      AllHandled(before, State(), order, groups.Keys, DeleteCommand(index, ids, route), env);
    }

    /** One turn of the loop over the groups. */
    method DeleteGroup(s: int, index: string, ghost ids: seq<string>, ghost route: Route,
                       groups: map<int, seq<string>>, ghost rest: set<int>, env: Env, deleted: nat,
                       ghost order: seq<int>, ghost before: State)
      returns (deleted': nat)
      requires Valid() && groups == IdGroupsOf(ids, route) && s in rest
      requires Handled(before, State(), order, groups.Keys, rest, DeleteCommand(index, ids, route), env)
      requires deleted == DeletedAll(before, order, ids, route, env)
      modifies shards.shardToAdapter.Values, replication.Nodes(), replication.adapters.Values, replication.log
      ensures Valid()
      ensures Handled(before, State(), order + [s], groups.Keys, rest - {s}, DeleteCommand(index, ids, route), env)
      ensures deleted' == DeletedAll(before, order + [s], ids, route, env)
    {
      ghost var mid := State();
      var ok := HandleGroup(s, R.BatchDelete(index, groups[s]), env);
      HandledNext(before, mid, State(), ok, order, groups.Keys, rest, s, DeleteCommand(index, ids, route), env);
      DeletedNext(before, order, s, ids, route, env);
      deleted' := if ok then deleted + |groups[s]| else deleted;
    }

    method GroupIds(ids: seq<string>) returns (groups: map<int, seq<string>>)
      requires Valid()
      ensures groups == IdGroupsOf(ids, Routing())
    {
      groups := map[];
      for i := 0 to |ids|
        invariant groups == IdGroupsOf(ids[..i], Routing())
      {
        var shard := shards.GetShardForKey(ids[i]);
        IdGroupsExtend(ids[..i], ids[i], Routing());
        if shard.Some? {
          groups := AddToGroup(groups, shard.value, ids[i]);
        }
        assert ids[..i + 1] == ids[..i] + [ids[i]];
      }
      assert ids[..|ids|] == ids;
    }

    // ----- Reading over all shards -----

    /** The part of the state that reading requests look at. */
    ghost predicate Shows(st: State)
      reads shards`shards, shards`shardToAdapter, shards.shardToAdapter.Values
    {
      st.dbs == shards.Dbs() && st.active == shards.ActiveShards()
    }

    /** answers are the shards whose search call succeeds; the others are left out of the result. */
    method Search(request: SearchRequest, topK: int, minScore: real, sqrt: real -> real, answers: set<int>,
                  ghost st: State)
      returns (success: bool, results: seq<SearchResult>)
      requires Valid() && Shows(st)
      ensures success <==>
        (request.index in indexes && |request.vector| == indexes[request.index].dimension && st.active != {})
      ensures success ==>
        IsResponse(results, AllHits(st, st.active * answers, CosineQuery(request, sqrt)),
          if topK <= 0 then 10 else topK, minScore)
      ensures !success ==> results == []
    {
      success, results := false, [];
      if request.index !in indexes || |request.vector| != indexes[request.index].dimension {
        return;
      }
      var healthy := shards.GetHealthyShards();
      if |healthy| == 0 {
        return;
      }
      var k := if topK <= 0 then 10 else topK;
      var best := SearchShards(request, k, sqrt, healthy, answers, st);
      results := ApplyMinScore(best, minScore);
      ResponseIsExact(best, AllHits(st, st.active * answers, CosineQuery(request, sqrt)), k, minScore);
      success := true;
    }

    /** Gather, select, truncate, sort. */
    method SearchShards(request: SearchRequest, k: nat, sqrt: real -> real, healthy: set<int>, answers: set<int>,
                        ghost st: State)
      returns (best: seq<SearchResult>)
      requires shards.Valid() && Shows(st) && healthy == st.active
      ensures IsBestOf(best, AllHits(st, healthy * answers, CosineQuery(request, sqrt)), k)
    {
      var arrived;
      ghost var origin;
      arrived, origin := Gather(request, k, sqrt, healthy, answers, st);
      best := KeepBest(arrived, k);
      BestOfGathered(st, healthy * answers, CosineQuery(request, sqrt), k, origin, arrived, best);
    }

    static method ApplyMinScore(best: seq<SearchResult>, minScore: real) returns (results: seq<SearchResult>)
      ensures results == AtLeastMin(best, minScore)
    {
      results := [];
      for i := 0 to |best|
        invariant results == AtLeastMin(best[..i], minScore)
      {
        assert best[..i + 1][..i] == best[..i];
        if !(minScore > 0.0 && best[i].score < minScore) {
          results := results + [best[i]];
        }
      }
      assert best[..|best|] == best;
    }

    /** The results in the order in which the shards' answers arrive. */
    method Gather(request: SearchRequest, k: nat, sqrt: real -> real, healthy: set<int>, answers: set<int>,
                  ghost st: State)
      returns (arrived: seq<SearchResult>, ghost origin: seq<(int, string)>)
      requires shards.Valid() && Shows(st) && healthy == st.active
      ensures Gathered(st, healthy * answers, CosineQuery(request, sqrt), k, origin, arrived)
    {
      arrived, origin := [], [];
      var rest := healthy;
      NothingGathered(st, CosineQuery(request, sqrt), k);
      assert (healthy - rest) * answers == {};
      while rest != {}
        invariant rest <= healthy && Shows(st)
        invariant Gathered(st, (healthy - rest) * answers, CosineQuery(request, sqrt), k, origin, arrived)
        decreases |rest|
      {
        ghost var some := MemberOf(rest);
        var s :| s in rest;
        HandOver(healthy, answers, rest, s);
        arrived, origin :=
          GatherOne(request, k, sqrt, s, s in answers, (healthy - rest) * answers, arrived, origin, st);
        rest := rest - {s};
      }
      assert healthy - rest == healthy;
    }

    /** One turn of the loop: the answer of shard s, if there is one. */
    method GatherOne(request: SearchRequest, k: nat, sqrt: real -> real, s: int, answered: bool, ghost done: set<int>,
                     arrived: seq<SearchResult>, ghost origin: seq<(int, string)>, ghost st: State)
      returns (arrived': seq<SearchResult>, ghost origin': seq<(int, string)>)
      requires shards.Valid() && Shows(st) && s in st.active && s !in done
      requires Gathered(st, done, CosineQuery(request, sqrt), k, origin, arrived)
      ensures Gathered(st, done + if answered then {s} else {}, CosineQuery(request, sqrt), k, origin', arrived')
    {
      arrived', origin' := arrived, origin;
      var top := SearchShard(request, k, sqrt, s, st);
      if answered {
        ghost var q := CosineQuery(request, sqrt);
        MoreCandidates(st, done, q, k, origin, arrived, s, top);
        arrived', origin' := arrived + top, origin + Tagged(s, HitOrder(st.dbs[s], q));
      } else {
        assert done + {} == done;
      }
    }

    /** One goroutine's adapter lookup and search; the caller drops the result of a failing call. */
    method SearchShard(request: SearchRequest, k: nat, sqrt: real -> real, s: int, ghost st: State)
      returns (top: seq<SearchResult>)
      requires shards.Valid() && Shows(st) && s in st.active
      ensures s in st.dbs && IsBestOf(top, Hits(st.dbs[s], CosineQuery(request, sqrt)), k)
    {
      var adapter := shards.GetShardAdapter(s);
      assert st.dbs[s] == adapter.value.State();
      top := adapter.value.SearchVectors(request, k, sqrt);
    }

    /** answers are the shards whose count call succeeds. */
    method GetStats(index: string, answers: set<int>, ghost st: State) returns (success: bool, total: nat)
      requires Valid() && Shows(st)
      ensures success <==> index in indexes
      ensures success ==> total == |Listed(st, st.active * answers, index)|
    {
      if index !in indexes {
        return false, 0;
      }
      success := true;
      total := CountAll(index, answers, st);
    }

    method CountAll(index: string, answers: set<int>, ghost st: State) returns (total: nat)
      requires shards.Valid() && Shows(st)
      ensures total == |Listed(st, st.active * answers, index)|
    {
      total := 0;
      var rest := shards.GetAllShards();
      ghost var counted := st.active * answers;
      assert rest >= counted;
      assert Listed(st, counted - rest, index) == {};
      while rest != {}
        invariant Shows(st) && total == |Listed(st, counted - rest, index)|
        decreases |rest|
      {
        ghost var some := MemberOf(rest);
        var s :| s in rest;
        var count := CountOn(s, index, st);
        CountNext(st, counted, rest, s, index);
        if s in answers && count.Some? {
          total := total + count.value;
        }
        rest := rest - {s};
      }
      assert counted - rest == counted;
    }

    method CountOn(s: int, index: string, ghost st: State) returns (count: Option<nat>)
      requires shards.Valid() && Shows(st)
      ensures s in st.active ==> s in st.dbs && count == Some(|Members(st.dbs[s], index)|)
      ensures s !in st.active ==> count == None
    {
      var adapter := shards.GetShardAdapter(s);
      if adapter.None? {
        return None;
      }
      assert st.dbs[s] == adapter.value.State();
      var n := adapter.value.GetVectorCount(index);
      count := Some(n);
    }
  }

  /** The answering shards done so far, after one more shard. */
  lemma HandOver(all: set<int>, answers: set<int>, rest: set<int>, s: int)
    requires s in rest && rest <= all
    ensures s !in (all - rest) * answers
    ensures (all - (rest - {s})) * answers == (all - rest) * answers + if s in answers then {s} else {}
  {
  }

  /** One more shard's share of the count. */
  lemma CountNext(st: State, counted: set<int>, rest: set<int>, s: int, index: string)
    requires s in rest && (s in counted ==> s in st.dbs)
    ensures |Listed(st, counted - (rest - {s}), index)| ==
      |Listed(st, counted - rest, index)| + if s in counted then |Members(st.dbs[s], index)| else 0
  {
    if s in counted {
      assert counted - (rest - {s}) == (counted - rest) + {s};
      ListedExtends(st, counted - rest, s, index);
    } else {
      assert counted - (rest - {s}) == counted - rest;
    }
  }

  /** A service over fresh managers, as the program builds it; connects are the shards that can be reached. */
  method Start(shardCount: nat, virtualNodes: nat, addresses: seq<string>, hash: Ring.Hash, connects: set<int>)
    returns (server: Server)
    requires shardCount > 0 ==> addresses != []
    ensures fresh(server) && server.Valid() && Initial(server.State()) && server.State().repl == R.EMPTY
    ensures server.State().active == server.State().dbs.Keys == set s | 0 <= s < shardCount && s in connects
  {
    var shards := new S.Manager(shardCount, virtualNodes, addresses, hash, connects);
    shards.FreshShards(shardCount, connects);
    var replication := new RM.Manager();
    server := new Server(shards, replication);
  }

  /** The shards outside rest have been handled, each once. */
  ghost predicate Handled(before: State, mid: State, order: seq<int>, all: set<int>, rest: set<int>,
                          cmd: int -> R.Command, env: Env)
  {
    && rest <= all && NoDuplicates(order) && ElementsOf(order) == all - rest
    && mid == CommitAll(before, order, cmd, env)
  }

  lemma AllHandled(before: State, after: State, order: seq<int>, all: set<int>, cmd: int -> R.Command, env: Env)
    requires Handled(before, after, order, all, {}, cmd, env)
    ensures NoDuplicates(order) && ElementsOf(order) == all && after == CommitAll(before, order, cmd, env)
  {
  }

  lemma HandledNext(before: State, mid: State, after: State, ok: bool, order: seq<int>, all: set<int>,
                    rest: set<int>, s: int, cmd: int -> R.Command, env: Env)
    requires Handled(before, mid, order, all, rest, cmd, env) && s in rest
    requires ok == Accepts(mid, s, env) && after == if ok then Commit(mid, s, cmd(s), env) else mid
    ensures Handled(before, after, order + [s], all, rest - {s}, cmd, env)
    ensures ok == Accepts(before, s, env)
  {
    CommitAllDbs(before, order, cmd, env, s);
    assert s !in ElementsOf(order);
    assert (order + [s])[..|order + [s]| - 1] == order;
    forall x ensures x in ElementsOf(order + [s]) <==> x in all - (rest - {s}) {
      assert x in order <==> x in ElementsOf(order);
    }
  }

  lemma TallyNext(st: State, order: seq<int>, s: int, vs: seq<StoredVector>, route: Route, env: Env, early: seq<string>)
    ensures TallyAll(st, order + [s], vs, route, env, early) ==
      TallyOne(TallyAll(st, order, vs, route, env, early), Group(vs, route, s), Accepts(st, s, env))
  {
  }

  lemma DeletedNext(st: State, order: seq<int>, s: int, ids: seq<string>, route: Route, env: Env)
    ensures DeletedAll(st, order + [s], ids, route, env) ==
      DeletedAll(st, order, ids, route, env) + if Accepts(st, s, env) then |IdGroup(ids, route, s)| else 0
  {
  }

  // ----- Groups as maps -----

  function AddToGroup<T>(groups: map<int, seq<T>>, s: int, x: T): map<int, seq<T>> {
    groups[s := (if s in groups then groups[s] else []) + [x]]
  }

  function GroupsOf(vs: seq<StoredVector>, route: Route): map<int, seq<StoredVector>> {
    map s | s in Targets(Ids(vs), route) :: Group(vs, route, s)
  }

  function IdGroupsOf(ids: seq<string>, route: Route): map<int, seq<string>> {
    map s | s in Targets(ids, route) :: IdGroup(ids, route, s)
  }

  lemma TargetsExtend(ids: seq<string>, id: string, route: Route)
    ensures Targets(ids + [id], route) == Targets(ids, route) + if route(id).Some? then {route(id).value} else {}
  {
    var longer := ids + [id];
    forall s | s in Targets(ids, route) ensures s in Targets(longer, route) {
      var i :| 0 <= i < |ids| && route(ids[i]).Some? && route(ids[i]).value == s;
      assert longer[i] == ids[i];
    }
    if route(id).Some? {
      assert longer[|ids|] == id;
    }
  }

  /** A shard without a target id so far has an empty group. */
  lemma {:induction false} NoIdGroupYet(ids: seq<string>, route: Route, s: int)
    ensures s !in Targets(ids, route) ==> IdGroup(ids, route, s) == []
  {
    if ids != [] {
      var init, last := ids[..|ids| - 1], ids[|ids| - 1];
      assert ids == init + [last];
      TargetsExtend(init, last, route);
      NoIdGroupYet(init, route, s);
    }
  }

  lemma {:induction false} NoGroupYet(vs: seq<StoredVector>, route: Route, s: int)
    ensures s !in Targets(Ids(vs), route) ==> Group(vs, route, s) == []
  {
    if vs != [] {
      var init, last := vs[..|vs| - 1], vs[|vs| - 1];
      assert Ids(vs) == Ids(init) + [last.id];
      TargetsExtend(Ids(init), last.id, route);
      NoGroupYet(init, route, s);
    }
  }

  lemma GroupExtends(vs: seq<StoredVector>, v: StoredVector, route: Route, s: int)
    ensures Group(vs + [v], route, s) == Group(vs, route, s) + if route(v.id) == Some(s) then [v] else []
  {
    assert (vs + [v])[..|vs + [v]| - 1] == vs;
  }

  lemma GroupsExtend(vs: seq<StoredVector>, v: StoredVector, route: Route)
    ensures GroupsOf(vs + [v], route) ==
      if route(v.id).None? then GroupsOf(vs, route) else AddToGroup(GroupsOf(vs, route), route(v.id).value, v)
  {
    var longer := vs + [v];
    assert Ids(longer) == Ids(vs) + [v.id];
    TargetsExtend(Ids(vs), v.id, route);
    var expected := if route(v.id).None? then GroupsOf(vs, route)
                    else AddToGroup(GroupsOf(vs, route), route(v.id).value, v);
    assert GroupsOf(longer, route).Keys == expected.Keys;
    forall s | s in Targets(Ids(longer), route) ensures GroupsOf(longer, route)[s] == expected[s] {
      GroupExtends(vs, v, route, s);
      NoGroupYet(vs, route, s);
      assert Group(vs, route, s) + [] == Group(vs, route, s);
    }
  }

  lemma IdGroupsExtend(ids: seq<string>, id: string, route: Route)
    ensures IdGroupsOf(ids + [id], route) ==
      if route(id).None? then IdGroupsOf(ids, route) else AddToGroup(IdGroupsOf(ids, route), route(id).value, id)
  {
    var longer := ids + [id];
    TargetsExtend(ids, id, route);
    assert longer[..|longer| - 1] == ids;
    var expected := if route(id).None? then IdGroupsOf(ids, route)
                    else AddToGroup(IdGroupsOf(ids, route), route(id).value, id);
    forall s | s in Targets(longer, route) ensures IdGroup(longer, route, s) == expected[s] {
      NoIdGroupYet(ids, route, s);
      assert IdGroup(ids, route, s) + [] == IdGroup(ids, route, s);
    }
    assert IdGroupsOf(longer, route).Keys == expected.Keys;
  }
}
