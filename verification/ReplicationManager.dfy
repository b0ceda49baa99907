/** The replication manager object (internal/replication/manager.go), proved against module Replication. */
module ReplicationManager {
  import opened Common
  import opened Store
  import opened Adapter
  import opened ReplicationLog
  import opened Replication

  /** A registered replica. Its shard number is ghost: it records where the node was registered. */
  class ReplicaNode {
    ghost const shard: int
    const address: string
    var role: Role
    var status: Health
    var lastSync: int

    constructor (shard: int, address: string, role: Role, status: Health, lastSync: int)
      ensures this.shard == shard && Value() == Replica(address, role, status, lastSync)
    {
      this.shard, this.address := shard, address;
      this.role, this.status, this.lastSync := role, status, lastSync;
    }

    function Value(): Replica
      reads this
    {
      Replica(address, role, status, lastSync)
    }
  }

  ghost function ValuesOf(nodes: seq<ReplicaNode>): (values: seq<Replica>)
    reads nodes
    ensures |values| == |nodes|
    ensures forall i :: 0 <= i < |nodes| ==> values[i] == nodes[i].Value()
  {
    seq(|nodes|, i requires 0 <= i < |nodes| reads nodes => nodes[i].Value())
  }

  /** A shard's list: every node was made for the shard, and addresses are unique. */
  ghost predicate WellPlaced(shard: int, list: seq<ReplicaNode>) {
    && (forall i :: 0 <= i < |list| ==> list[i].shard == shard)
    && (forall i, j :: 0 <= i < j < |list| ==> list[i].address != list[j].address)
  }

  class Manager {
    var replicas: map<int, seq<ReplicaNode>>
    var primaryNodes: map<int, string>
    var adapters: map<string, RedisAdapter>
    const log: Log

    constructor ()
      ensures Valid() && State() == Replication.EMPTY && adapters == map[] && fresh(log)
    {
      replicas, primaryNodes, adapters := map[], map[], map[];
      log := new Log();
    }

    ghost function Nodes(): set<ReplicaNode>
      reads `replicas
    {
      set s, i | s in replicas && 0 <= i < |replicas[s]| :: replicas[s][i]
    }

    /** Every node sits in the list of its shard once; every adapter is the one for its address. */
    ghost predicate Valid()
      reads `replicas, `adapters
    {
      && (forall s :: s in replicas ==> WellPlaced(s, replicas[s]))
      && (forall a :: a in adapters ==> adapters[a].address == a)
    }

    ghost function Table(): map<int, seq<Replica>>
      reads `replicas, Nodes()
    {
      map s | s in replicas :: ValuesOf(replicas[s])
    }

    ghost function Stores(): map<string, Db>
      reads `adapters, adapters.Values
    {
      map a | a in adapters :: adapters[a].State()
    }

    ghost function State(): Replication.State
      reads this, Nodes(), adapters.Values, log
    {
      Replication.State(Table(), primaryNodes, Stores(), log.entries)
    }

    lemma AllDifferFrom(s: int, k: nat)
      requires Valid() && s in replicas && k < |replicas[s]|
      ensures replicas[s][k] in Nodes()
      ensures forall t, i :: t in replicas && 0 <= i < |replicas[t]| && (t != s || i != k) ==>
        replicas[t][i] != replicas[s][k]
    {
    }

    lemma StoresAre(stores: map<string, Db>)
      requires stores.Keys == adapters.Keys
      requires forall a :: a in adapters ==> adapters[a].State() == stores[a]
      ensures Stores() == stores
    {
      assert Stores().Keys == stores.Keys;
      forall a | a in stores ensures Stores()[a] == stores[a] {
      }
    }

    lemma TableIs(table: map<int, seq<Replica>>)
      requires table.Keys == replicas.Keys
      requires forall t :: t in replicas ==> |table[t]| == |replicas[t]|
      requires forall t, i :: t in replicas && 0 <= i < |replicas[t]| ==> replicas[t][i].Value() == table[t][i]
      ensures Table() == table
    {
      forall t | t in replicas ensures Table()[t] == table[t] {
      }
    }

    /** A table whose nodes all kept their records but one. */
    lemma OneNodeChanged(before: map<int, seq<Replica>>, s: int, k: nat)
      requires Valid() && s in replicas && k < |replicas[s]|
      requires before.Keys == replicas.Keys
      requires forall t :: t in replicas ==> |before[t]| == |replicas[t]|
      requires forall t, i :: t in replicas && 0 <= i < |replicas[t]| && (t != s || i != k) ==>
        replicas[t][i].Value() == before[t][i]
      ensures Table() == before[s := before[s][k := replicas[s][k].Value()]]
    {
      forall t | t in replicas
        ensures Table()[t] == if t == s then before[s][k := replicas[s][k].Value()] else before[t]
      {
      }
    }

    /** The search loop that marking, syncing and promotion share: the first replica with the address. */
    method Find(shard: int, address: string) returns (k: nat)
      requires shard in replicas
      ensures k <= |replicas[shard]| && k == IndexOf(Table()[shard], address)
    {
      k := 0;
      while k < |replicas[shard]| && replicas[shard][k].address != address
        invariant k <= |replicas[shard]|
        invariant forall j :: 0 <= j < k ==> replicas[shard][j].address != address
      {
        k := k + 1;
      }
    }

    method FailNode(shard: int, k: nat)
      requires Valid() && shard in replicas && k < |replicas[shard]|
      modifies Nodes()
      ensures var list := old(Table())[shard];
        Table() == old(Table())[shard := list[k := list[k].(status := Failed)]] && Stores() == old(Stores())
    {
      AllDifferFrom(shard, k);
      replicas[shard][k].status := Failed;
      OneNodeChanged(old(Table()), shard, k);
    }

    method SyncNode(shard: int, k: nat, now: int)
      requires Valid() && shard in replicas && k < |replicas[shard]|
      modifies Nodes()
      ensures var list := old(Table())[shard];
        Table() == old(Table())[shard := list[k := list[k].(lastSync := now)]] && Stores() == old(Stores())
    {
      AllDifferFrom(shard, k);
      replicas[shard][k].lastSync := now;
      OneNodeChanged(old(Table()), shard, k);
    }

    method MarkReplicaFailed(shard: int, address: string)
      requires Valid()
      modifies Nodes()
      ensures Valid() && Stores() == old(Stores())
      ensures Table() == if shard in replicas
        then old(Table())[shard := MarkFailed(old(Table())[shard], address)] else old(Table())
    {
      if shard in replicas {
        var k := Find(shard, address);
        if k < |replicas[shard]| {
          FailNode(shard, k);
        }
      }
    }

    method UpdateReplicaSync(shard: int, address: string, now: int)
      requires Valid()
      modifies Nodes()
      ensures Valid() && Stores() == old(Stores())
      ensures Table() == if shard in replicas
        then old(Table())[shard := Synced(old(Table())[shard], address, now)] else old(Table())
    {
      if shard in replicas {
        var k := Find(shard, address);
        if k < |replicas[shard]| {
          SyncNode(shard, k, now);
        }
      }
    }

    /** Sends one command to one adapter. */
    static method Send(adapter: RedisAdapter, cmd: Command, up: bool) returns (ok: bool)
      modifies adapter
      ensures ok == up
      ensures adapter.State() == if up then Apply(old(adapter.State()), cmd.Effect()) else old(adapter.State())
    {
      match cmd
      case Insert(index, v) => ok := adapter.StoreVector(index, v, up);
      case BatchInsert(index, vs) => ok := adapter.BatchStoreVectors(index, vs, up);
      case Delete(index, id) => ok := adapter.DeleteVector(index, id, up);
      case BatchDelete(index, ids) =>
        var deleted;
        deleted, ok := adapter.BatchDeleteVectors(index, ids, up);
    }

    /** The log call of the single-vector commands. */
    method LogCommand(shard: int, cmd: Command, success: bool, now: int)
      modifies log
      ensures Table() == old(Table()) && Stores() == old(Stores())
      ensures log.entries == AppendAll(old(log.entries), cmd.LogEntries(now, shard, success))
    {
      match cmd
      case Insert(_, v) => log.LogReplication(now, shard, "insert", v.id, success);
      case Delete(_, id) => log.LogReplication(now, shard, "delete", id, success);
      case _ =>
    }

    method SendTo(address: string, cmd: Command, up: bool) returns (ok: bool)
      requires Valid() && address in adapters
      modifies adapters.Values
      ensures Valid() && ok == up && Table() == old(Table())
      ensures Stores() == if up then old(Stores())[address := Apply(old(Stores())[address], cmd.Effect())]
        else old(Stores())
    {
      ghost var before := Stores();
      ok := Send(adapters[address], cmd, up);
      forall a | a in adapters && a != address ensures adapters[a].State() == before[a] {
        assert adapters[a].address != adapters[address].address;
      }
      StoresAre(if up then before[address := Apply(before[address], cmd.Effect())] else before);
    }

    method SendAndLog(shard: int, address: string, cmd: Command, up: bool, now: int) returns (ok: bool)
      requires Valid() && address in adapters
      modifies adapters.Values, log
      ensures Valid() && ok == up && Table() == old(Table())
      ensures Stores() == if up then old(Stores())[address := Apply(old(Stores())[address], cmd.Effect())]
        else old(Stores())
      ensures log.entries == AppendAll(old(log.entries), cmd.LogEntries(now, shard, ok))
    {
      ok := SendTo(address, cmd, up);
      LogCommand(shard, cmd, ok, now);
    }

    /** What a goroutine records about its replica once the call has returned. */
    method Record(shard: int, address: string, cmd: Command, ok: bool, now: int)
      requires Valid() && shard in replicas
      modifies Nodes()
      ensures Valid() && Stores() == old(Stores())
      ensures var list := old(Table())[shard]; Table() == old(Table())[shard :=
        if ok then Synced(list, address, now) else if cmd.FailsReplica() then MarkFailed(list, address) else list]
    {
      if ok {
        UpdateReplicaSync(shard, address, now);
      } else if cmd.FailsReplica() {
        MarkReplicaFailed(shard, address);
      } else {
        assert Table()[shard := Table()[shard]] == Table();
      }
    }

    /** The body of one fan-out goroutine. */
    method DeliverTo(shard: int, k: nat, cmd: Command, refuse: set<string>, now: int)
      requires Valid() && shard in replicas && k < |replicas[shard]|
      modifies Nodes(), adapters.Values, log
      ensures Valid() && State() == Deliver(old(State()), shard, k, cmd, refuse, now)
    {
      var r := replicas[shard][k];
      ghost var before := State();
      assert before.replicas[shard][k] == r.Value();
      if r.status != Active || r.role == Primary || r.address !in adapters {
        return;
      }
      var ok := SendAndLog(shard, r.address, cmd, r.address !in refuse, now);
      Record(shard, r.address, cmd, ok, now);
      DeliveredIs(before, State(), shard, k, cmd, refuse, now, ok);
    }

    static lemma DeliveredIs(before: Replication.State, after: Replication.State, shard: int, k: nat,
                             cmd: Command, refuse: set<string>, now: int, ok: bool)
      requires shard in before.replicas && k < |before.replicas[shard]|
      requires var r := before.replicas[shard][k];
        r.status == Active && r.role != Primary && r.address in before.stores && ok == (r.address !in refuse)
      requires var list, address := before.replicas[shard], before.replicas[shard][k].address;
        && after.replicas == before.replicas[shard := if ok then Synced(list, address, now)
             else if cmd.FailsReplica() then MarkFailed(list, address) else list]
        && after.stores == (if ok then before.stores[address := Apply(before.stores[address], cmd.Effect())]
             else before.stores)
      requires after.log == AppendAll(before.log, cmd.LogEntries(now, shard, ok))
      requires after.primary == before.primary
      ensures after == Deliver(before, shard, k, cmd, refuse, now)
    {
    }

    /** ReplicateInsert, ReplicateBatch, ReplicateUpdate, ReplicateDelete and ReplicateBatchDelete. */
    method Replicate(shard: int, cmd: Command, refuse: set<string>, now: int)
      requires Valid()
      modifies Nodes(), adapters.Values, log
      ensures Valid() && State() == Replication.Replicate(old(State()), shard, cmd, refuse, now)
    {
      if shard !in replicas || |replicas[shard]| == 0 {
        return;
      }
      DeliverToAll(State(), shard, cmd, refuse, now);
    }

    /** The first k replicas of the shard have been served. */
    ghost predicate Sent(before: Replication.State, shard: int, k: nat, cmd: Command, refuse: set<string>, now: int)
      reads this, Nodes(), adapters.Values, log
    {
      State() == FanOut(before, shard, k, cmd, refuse, now)
    }

    /** The loop over the shard's replicas. */
    method DeliverToAll(ghost before: Replication.State, shard: int, cmd: Command, refuse: set<string>, now: int)
      requires Valid() && shard in replicas && Sent(before, shard, 0, cmd, refuse, now)
      modifies Nodes(), adapters.Values, log
      ensures Valid() && Sent(before, shard, |replicas[shard]|, cmd, refuse, now)
    {
      for k := 0 to |replicas[shard]|
        invariant Valid() && Sent(before, shard, k, cmd, refuse, now)
      {
        DeliverNext(before, shard, k, cmd, refuse, now);
      }
    }

    /** One turn of the loop over the replicas. */
    method DeliverNext(ghost before: Replication.State, shard: int, k: nat, cmd: Command, refuse: set<string>, now: int)
      requires Valid() && shard in replicas && k < |replicas[shard]|
      requires Sent(before, shard, k, cmd, refuse, now)
      modifies Nodes(), adapters.Values, log
      ensures Valid() && Sent(before, shard, k + 1, cmd, refuse, now)
    {
      DeliverTo(shard, k, cmd, refuse, now);
    }

    /** connection is the adapter for the node's address, None when connecting fails. */
    method RegisterReplica(shard: int, node: ReplicaNode, connection: Option<RedisAdapter>) returns (ok: bool)
      requires Valid() && node.shard == shard
      requires connection.Some? ==> connection.value.address == node.address
      modifies this
      ensures Valid()
      ensures ok == Admits(old(State()), shard, node.address, connection.Some?)
      ensures !ok ==> State() == WithList(old(State()), shard)
      ensures ok ==>
        (State() == Attached(WithList(old(State()), shard), shard, old(node.Value()), old(connection.value.State())))
      ensures adapters == if ok then old(adapters)[node.address := connection.value] else old(adapters)
    {
      ok := Admit(shard, node.address, connection.Some?);
      if ok {
        Attach(shard, node, connection.value);
      }
    }

    /** The checks of a registration, which also create the shard's list. */
    method Admit(shard: int, address: string, reachable: bool) returns (ok: bool)
      requires Valid()
      modifies `replicas
      ensures Valid() && shard in replicas
      ensures ok == Admits(old(State()), shard, address, reachable)
      ensures ok ==> IndexOf(Table()[shard], address) == |replicas[shard]|
      ensures State() == WithList(old(State()), shard)
    {
      EnsureList(shard);
      assert State() == WithList(old(State()), shard);
      var k := Find(shard, address);
      assert |Table()[shard]| == |replicas[shard]|;
      ok := k == |replicas[shard]| && reachable;
    }

    method EnsureList(shard: int)
      requires Valid()
      modifies `replicas
      ensures Valid() && shard in replicas && State() == WithList(old(State()), shard)
    {
      ghost var listed := WithList(State(), shard);
      if shard !in replicas {
        replicas := replicas[shard := []];
      }
      TableIs(listed.replicas);
    }

    /** The updates of a registration that goes through. */
    method Attach(shard: int, node: ReplicaNode, adapter: RedisAdapter)
      requires Valid() && node.shard == shard && adapter.address == node.address && shard in replicas
      requires IndexOf(Table()[shard], node.address) == |replicas[shard]|
      modifies this
      ensures Valid()
      ensures State() == Attached(old(State()), shard, old(node.Value()), old(adapter.State()))
      ensures adapters == old(adapters)[node.address := adapter]
    {
      AttachNode(shard, node);
      AttachAdapter(adapter);
      if node.role == Primary {
        NamePrimary(shard, node.address);
      }
    }

    method NamePrimary(shard: int, address: string)
      requires Valid()
      modifies `primaryNodes
      ensures Valid() && Table() == old(Table()) && Stores() == old(Stores())
      ensures primaryNodes == old(primaryNodes)[shard := address]
    {
      primaryNodes := primaryNodes[shard := address];
    }

    method AttachAdapter(adapter: RedisAdapter)
      requires Valid()
      modifies `adapters
      ensures Valid() && Table() == old(Table())
      ensures Stores() == old(Stores())[adapter.address := old(adapter.State())]
      ensures adapters == old(adapters)[adapter.address := adapter]
    {
      adapters := adapters[adapter.address := adapter];
    }

    method AttachNode(shard: int, node: ReplicaNode)
      requires Valid() && node.shard == shard && shard in replicas
      requires IndexOf(Table()[shard], node.address) == |replicas[shard]|
      modifies `replicas
      ensures Valid() && Stores() == old(Stores())
      ensures Table() == old(Table())[shard := old(Table())[shard] + [old(node.Value())]]
    {
      ghost var table := Table()[shard := Table()[shard] + [node.Value()]];
      ghost var list := replicas[shard];
      forall j | 0 <= j < |list| ensures list[j].address != node.address {
        assert Table()[shard][j].address != node.address;
      }
      replicas := replicas[shard := replicas[shard] + [node]];
      assert WellPlaced(shard, replicas[shard]);
      TableIs(table);
    }

    method PromoteReplica(shard: int, address: string) returns (ok: bool)
      requires Valid()
      modifies `primaryNodes, Nodes()
      ensures Valid()
      ensures (State(), ok) == Promote(old(State()), shard, address)
    {
      if shard !in replicas {
        return false;
      }
      var target := Find(shard, address);
      assert target < |replicas[shard]| ==> replicas[shard][target].Value() == Table()[shard][target];
      if target == |replicas[shard]| || replicas[shard][target].status != Active {
        return false;
      }
      SwitchPrimary(shard, address);
      return true;
    }

    method SwitchPrimary(shard: int, address: string)
      requires Valid() && shard in replicas
      modifies `primaryNodes, Nodes()
      ensures Valid() && Stores() == old(Stores())
      ensures primaryNodes == old(primaryNodes)[shard := address]
      ensures Table() == old(Table())[shard :=
        PromotedList(old(Table())[shard], OldPrimary(old(State()), shard), address)]
    {
      var oldPrimary := if shard in primaryNodes then primaryNodes[shard] else "";
      DemoteAndPromote(shard, oldPrimary, address);
      NamePrimary(shard, address);
    }

    method DemoteAndPromote(shard: int, oldPrimary: string, address: string)
      requires Valid() && shard in replicas
      modifies Nodes()
      ensures Valid() && Stores() == old(Stores())
      ensures Table() == old(Table())[shard := PromotedList(old(Table())[shard], oldPrimary, address)]
    {
      ghost var table := Table()[shard := PromotedList(Table()[shard], oldPrimary, address)];
      SwitchRoles(shard, oldPrimary, address);
      TableIs(table);
    }

    /** The role loop of a promotion. */
    method SwitchRoles(shard: int, oldPrimary: string, address: string)
      requires Valid() && shard in replicas
      modifies Nodes()
      ensures forall t, j :: t in replicas && 0 <= j < |replicas[t]| ==>
        (replicas[t][j].Value() ==
          if t == shard then Promoted(old(replicas[t][j].Value()), oldPrimary, address)
          else old(replicas[t][j].Value()))
      ensures Stores() == old(Stores())
    {
      for i := 0 to |replicas[shard]|
        invariant forall t, j :: t in replicas && 0 <= j < |replicas[t]| ==>
          (replicas[t][j].Value() ==
            if t == shard && j < i then Promoted(old(replicas[t][j].Value()), oldPrimary, address)
            else old(replicas[t][j].Value()))
      {
        AllDifferFrom(shard, i);
        if replicas[shard][i].address == oldPrimary {
          replicas[shard][i].role := Secondary;
        } else if replicas[shard][i].address == address {
          replicas[shard][i].role := Primary;
        }
      }
    }

    method CheckReplicaHealth(now: int, limits: Limits)
      requires Valid()
      modifies Nodes()
      ensures Valid() && State() == CheckLag(old(State()), now, limits)
    {
      ghost var before := State();
      CheckAllShards(now, limits);
      TableIs(CheckLag(before, now, limits).replicas);
    }

    /** The loop over a copy of the replica table. */
    method CheckAllShards(now: int, limits: Limits)
      requires Valid()
      modifies Nodes()
      ensures forall t, j :: t in replicas && 0 <= j < |replicas[t]| ==>
        replicas[t][j].Value() == LagChecked(old(replicas[t][j].Value()), now, limits)
      ensures Stores() == old(Stores())
    {
      var rest := replicas.Keys;
      while rest != {}
        invariant rest <= replicas.Keys
        invariant forall t, j :: t in replicas && 0 <= j < |replicas[t]| ==>
          (replicas[t][j].Value() ==
            if t in rest then old(replicas[t][j].Value()) else LagChecked(old(replicas[t][j].Value()), now, limits))
        decreases |rest|
      {
        ghost var some := MemberOf(rest);
        var shard :| shard in rest;
        CheckShard(shard, now, limits);
        rest := rest - {shard};
      }
    }

    method CheckShard(shard: int, now: int, limits: Limits)
      requires Valid() && shard in replicas
      modifies Nodes()
      ensures forall t, j :: t in replicas && 0 <= j < |replicas[t]| ==>
        (replicas[t][j].Value() ==
          if t == shard then LagChecked(old(replicas[t][j].Value()), now, limits) else old(replicas[t][j].Value()))
    {
      for i := 0 to |replicas[shard]|
        invariant forall t, j :: t in replicas && 0 <= j < |replicas[t]| ==>
          (replicas[t][j].Value() ==
            if t == shard && j < i then LagChecked(old(replicas[t][j].Value()), now, limits)
            else old(replicas[t][j].Value()))
      {
        var r := replicas[shard][i];
        if r.role != Primary {
          var lag := now - r.lastSync;
          if lag > limits.maxLag {
            if lag > limits.failoverTimeout {
              MarkNode(shard, i);
            }
          }
        }
      }
    }

    /** Marking by address hits the node at hand, because addresses are unique within a shard. */
    method MarkNode(shard: int, i: nat)
      requires Valid() && shard in replicas && i < |replicas[shard]|
      modifies Nodes()
      ensures forall t, j :: t in replicas && 0 <= j < |replicas[t]| ==>
        (replicas[t][j].Value() ==
          if t == shard && j == i then old(replicas[t][j].Value()).(status := Failed)
          else old(replicas[t][j].Value()))
    {
      UniqueIndex(Table()[shard], i);
      ghost var before: map<int, seq<Replica>> := Table();
      MarkReplicaFailed(shard, replicas[shard][i].address);
      forall t, j | t in replicas && 0 <= j < |replicas[t]|
        ensures replicas[t][j].Value() ==
          if t == shard && j == i then before[t][j].(status := Failed) else before[t][j]
      {
        assert Table()[t][j] == replicas[t][j].Value();
      }
    }
  }
}
