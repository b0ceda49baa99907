/**
 * Replica coverage: whatever a shard makes searchable, every secondary that is still active holds with
 * the same value, although replicas of different shards may share one store.
 */
module Coverage {
  import opened Common
  import opened Vectors
  import opened Store
  import opened Service
  import opened Refinement
  import Log = ReplicationLog
  import R = Replication

  // ----- One fan-out, replica by replica and store by store -----

  function DeliveredEntry(r: R.Replica, stores: set<string>, cmd: R.Command, refuse: set<string>, now: int): R.Replica {
    if r.status != R.Active || r.role == R.Primary || r.address !in stores then r
    else if r.address !in refuse then r.(lastSync := now)
    else if cmd.FailsReplica() then r.(status := R.Failed)
    else r
  }

  /** One of the first n replicas is an active secondary at the address and the address answers. */
  ghost predicate Receives(list: seq<R.Replica>, n: nat, address: string, refuse: set<string>) {
    address !in refuse &&
    exists k :: 0 <= k < n && k < |list| && list[k].address == address && list[k].status == R.Active &&
      list[k].role == R.Secondary
  }

  ghost predicate EntriesDelivered(list: seq<R.Replica>, after: seq<R.Replica>, n: nat, stores: set<string>,
                                   cmd: R.Command, refuse: set<string>, now: int)
  {
    |after| == |list| &&
    forall k :: 0 <= k < |list| ==>
      after[k] == if k < n then DeliveredEntry(list[k], stores, cmd, refuse, now) else list[k]
  }

  ghost predicate StoresDelivered(before: map<string, Db>, after: map<string, Db>, list: seq<R.Replica>, n: nat,
                                  cmd: R.Command, refuse: set<string>)
  {
    after.Keys == before.Keys &&
    forall a :: a in before ==>
      (after[a] == if Receives(list, n, a, refuse) then Apply(before[a], cmd.Effect()) else before[a])
  }

  /** The state after the first n deliveries of a fan-out. */
  ghost predicate FannedOut(st: R.State, mid: R.State, shard: int, n: nat, cmd: R.Command, refuse: set<string>,
                            now: int)
  {
    && mid.primary == st.primary && shard in st.replicas && shard in mid.replicas
    && mid.replicas == st.replicas[shard := mid.replicas[shard]]
    && EntriesDelivered(st.replicas[shard], mid.replicas[shard], n, st.stores.Keys, cmd, refuse, now)
    && StoresDelivered(st.stores, mid.stores, st.replicas[shard], n, cmd, refuse)
  }

  lemma SameAddressesUnique(list: seq<R.Replica>, after: seq<R.Replica>)
    requires R.UniqueAddresses(list) && |after| == |list|
    requires forall i :: 0 <= i < |list| ==> after[i].address == list[i].address
    ensures R.UniqueAddresses(after)
  {
  }

  /** A delivery rewrites exactly the entry of its own replica. */
  lemma DeliverRewrites(st: R.State, shard: int, n: nat, cmd: R.Command, refuse: set<string>, now: int)
    requires shard in st.replicas && n < |st.replicas[shard]| && R.UniqueAddresses(st.replicas[shard])
    ensures var list, after := st.replicas[shard], R.Deliver(st, shard, n, cmd, refuse, now);
      && after.primary == st.primary
      && after.replicas == st.replicas[shard :=
           list[n := DeliveredEntry(list[n], st.stores.Keys, cmd, refuse, now)]]
  {
    var list := st.replicas[shard];
    R.UniqueIndex(list, n);
    assert list[n := list[n]] == list;
    assert st.replicas[shard := list] == st.replicas;
  }

  lemma DeliverEntries(st: R.State, mid: R.State, shard: int, n: nat, cmd: R.Command, refuse: set<string>, now: int)
    requires FannedOut(st, mid, shard, n, cmd, refuse, now)
    requires n < |st.replicas[shard]| && R.UniqueAddresses(st.replicas[shard])
    ensures var after := R.Deliver(mid, shard, n, cmd, refuse, now);
      && after.primary == st.primary && shard in after.replicas
      && after.replicas == st.replicas[shard := after.replicas[shard]]
      && EntriesDelivered(st.replicas[shard], after.replicas[shard], n + 1, st.stores.Keys, cmd, refuse, now)
  {
    SameAddressesUnique(st.replicas[shard], mid.replicas[shard]);
    DeliverRewrites(mid, shard, n, cmd, refuse, now);
  }

  /** The replica is an active secondary at the address, which answers. */
  predicate Takes(r: R.Replica, a: string, refuse: set<string>) {
    r.address == a && r.status == R.Active && r.role == R.Secondary && a !in refuse
  }

  lemma DeliverAt(mid: R.State, s: int, k: nat, cmd: R.Command, refuse: set<string>, now: int, a: string)
    requires s in mid.replicas && k < |mid.replicas[s]| && a in mid.stores
    ensures var after := R.Deliver(mid, s, k, cmd, refuse, now);
      && after.stores.Keys == mid.stores.Keys
      && after.stores[a] ==
           if Takes(mid.replicas[s][k], a, refuse) then Apply(mid.stores[a], cmd.Effect()) else mid.stores[a]
  {
  }

  lemma ReceivesNext(list: seq<R.Replica>, n: nat, a: string, refuse: set<string>)
    requires n < |list| && R.UniqueAddresses(list)
    ensures Receives(list, n + 1, a, refuse) <==> Receives(list, n, a, refuse) || Takes(list[n], a, refuse)
    ensures !(Receives(list, n, a, refuse) && Takes(list[n], a, refuse))
  {
  }

  lemma DeliverStores(st: R.State, mid: R.State, shard: int, n: nat, cmd: R.Command, refuse: set<string>, now: int)
    requires FannedOut(st, mid, shard, n, cmd, refuse, now)
    requires n < |st.replicas[shard]| && R.UniqueAddresses(st.replicas[shard])
    ensures StoresDelivered(st.stores, R.Deliver(mid, shard, n, cmd, refuse, now).stores, st.replicas[shard], n + 1,
      cmd, refuse)
  {
    var list, after := st.replicas[shard], R.Deliver(mid, shard, n, cmd, refuse, now).stores;
    DeliverKeepsStores(mid, shard, n, cmd, refuse, now);
    forall a | a in st.stores
      ensures after[a] == if Receives(list, n + 1, a, refuse) then Apply(st.stores[a], cmd.Effect()) else st.stores[a]
    {
      DeliverAt(mid, shard, n, cmd, refuse, now, a);
      ReceivesNext(list, n, a, refuse);
    }
  }

  lemma DeliverKeepsStores(mid: R.State, shard: int, n: nat, cmd: R.Command, refuse: set<string>, now: int)
    ensures R.Deliver(mid, shard, n, cmd, refuse, now).stores.Keys == mid.stores.Keys
  {
  }

  lemma DeliverOne(st: R.State, mid: R.State, shard: int, n: nat, cmd: R.Command, refuse: set<string>, now: int)
    requires 0 < n && FannedOut(st, mid, shard, n - 1, cmd, refuse, now)
    requires n <= |st.replicas[shard]| && R.UniqueAddresses(st.replicas[shard])
    ensures FannedOut(st, R.Deliver(mid, shard, n - 1, cmd, refuse, now), shard, n, cmd, refuse, now)
  {
    DeliverEntries(st, mid, shard, n - 1, cmd, refuse, now);
    DeliverStores(st, mid, shard, n - 1, cmd, refuse, now);
  }

  lemma NothingDelivered(st: R.State, shard: int, cmd: R.Command, refuse: set<string>, now: int)
    requires shard in st.replicas
    ensures FannedOut(st, st, shard, 0, cmd, refuse, now)
  {
  }

  lemma {:induction false} FanOutDelivers(
      st: R.State, shard: int, n: nat, cmd: R.Command, refuse: set<string>, now: int)
    requires shard in st.replicas && n <= |st.replicas[shard]| && R.UniqueAddresses(st.replicas[shard])
    ensures FannedOut(st, R.FanOut(st, shard, n, cmd, refuse, now), shard, n, cmd, refuse, now)
  {
    if n == 0 {
      NothingDelivered(st, shard, cmd, refuse, now);
    } else {
      FanOutDelivers(st, shard, n - 1, cmd, refuse, now);
      DeliverOne(st, R.FanOut(st, shard, n - 1, cmd, refuse, now), shard, n, cmd, refuse, now);
    }
  }

  // ----- What a fan-out does to statuses, sync times and the log -----

  /** An active secondary with an adapter: it gets a call. */
  predicate IsCalled(r: R.Replica, stores: set<string>) {
    r.role == R.Secondary && r.status == R.Active && r.address in stores
  }

  /** The addresses that get a call, in list order. */
  function Called(list: seq<R.Replica>, stores: set<string>): (called: seq<string>)
    ensures |called| <= |list|
  {
    if list == [] then []
    else
      var r := list[|list| - 1];
      Called(list[..|list| - 1], stores) +
        if IsCalled(r, stores) then [r.address] else []
  }

  /**
   * A refused call fails its replica exactly for the commands that store vectors, an answered one sets the
   * sync time, and whoever gets no call stays as it is.
   */
  lemma FanOutRewrites(st: R.State, s: int, cmd: R.Command, refuse: set<string>, now: int, k: nat)
    requires s in st.replicas && R.UniqueAddresses(st.replicas[s]) && k < |st.replicas[s]|
    ensures var after := R.Replicate(st, s, cmd, refuse, now).replicas;
      && s in after && k < |after[s]|
      && var r, r' := st.replicas[s][k], after[s][k];
         && (IsCalled(r, st.stores.Keys) && r.address in refuse && (cmd.Insert? || cmd.BatchInsert?) ==>
               r' == r.(status := R.Failed))
         && (IsCalled(r, st.stores.Keys) && r.address in refuse && (cmd.Delete? || cmd.BatchDelete?) ==> r' == r)
         && (IsCalled(r, st.stores.Keys) && r.address !in refuse ==> r' == r.(lastSync := now))
         && (!IsCalled(r, st.stores.Keys) ==> r' == r)
  {
    FanOutDelivers(st, s, |st.replicas[s]|, cmd, refuse, now);
  }

  /**
   * A replica that answered a fan-out is still active after a lag check d later exactly when d is within
   * one of the two limits.
   */
  lemma AnsweringSurvivesLagCheck(st: R.State, s: int, cmd: R.Command, refuse: set<string>, now: int, d: int,
                                  limits: R.Limits, k: nat)
    requires s in st.replicas && R.UniqueAddresses(st.replicas[s]) && k < |st.replicas[s]|
    requires var r := st.replicas[s][k]; IsCalled(r, st.stores.Keys) && r.address !in refuse
    ensures var after := R.CheckLag(R.Replicate(st, s, cmd, refuse, now), now + d, limits).replicas;
      && s in after && k < |after[s]|
      && (after[s][k].status == R.Active <==> d <= limits.maxLag || d <= limits.failoverTimeout)
      && after[s][k].lastSync == now
  {
    FanOutRewrites(st, s, cmd, refuse, now, k);
    R.CheckLagFails(R.Replicate(st, s, cmd, refuse, now), now + d, limits, s, k);
  }

  /** One entry for each call of a single-vector command, in list order: what was asked and whether it went through. */
  ghost predicate LogsCalls(entries: seq<Log.Entry>, called: seq<string>, s: int, cmd: R.Command, refuse: set<string>,
                            now: int)
  {
    |entries| == (if cmd.Insert? || cmd.Delete? then |called| else 0) &&
    forall p :: 0 <= p < |entries| ==>
      && entries[p].at == now && entries[p].shard == s
      && (entries[p].success <==> called[p] !in refuse)
      && (cmd.Insert? ==> entries[p].operation == "insert" && entries[p].key == cmd.vector.id)
      && (cmd.Delete? ==> entries[p].operation == "delete" && entries[p].key == cmd.id)
  }

  lemma CalledNext(list: seq<R.Replica>, n: nat, stores: set<string>)
    requires n < |list|
    ensures Called(list[..n + 1], stores) ==
      Called(list[..n], stores) + if IsCalled(list[n], stores) then [list[n].address] else []
  {
    assert list[..n + 1][..n] == list[..n];
  }

  /** The log of one delivery. */
  lemma DeliverLogs(mid: R.State, s: int, n: nat, cmd: R.Command, refuse: set<string>, now: int)
    returns (entries: seq<Log.Entry>)
    requires s in mid.replicas && n < |mid.replicas[s]|
    ensures R.Deliver(mid, s, n, cmd, refuse, now).log == Log.AppendAll(mid.log, entries)
    ensures var r := mid.replicas[s][n];
      LogsCalls(entries, if IsCalled(r, mid.stores.Keys) then [r.address] else [], s, cmd, refuse, now)
  {
    var r := mid.replicas[s][n];
    entries := if IsCalled(r, mid.stores.Keys) then cmd.LogEntries(now, s, r.address !in refuse) else [];
  }

  lemma LogsCallsJoin(xs: seq<Log.Entry>, ys: seq<Log.Entry>, a: seq<string>, b: seq<string>, s: int, cmd: R.Command,
                      refuse: set<string>, now: int)
    requires LogsCalls(xs, a, s, cmd, refuse, now) && LogsCalls(ys, b, s, cmd, refuse, now)
    ensures LogsCalls(xs + ys, a + b, s, cmd, refuse, now)
  {
  }

  lemma {:induction false} AppendInTurn(log: seq<Log.Entry>, xs: seq<Log.Entry>, ys: seq<Log.Entry>)
    ensures Log.AppendAll(Log.AppendAll(log, xs), ys) == Log.AppendAll(log, xs + ys)
  {
    if ys == [] {
      assert xs + ys == xs;
    } else {
      AppendInTurn(log, xs, ys[..|ys| - 1]);
      assert (xs + ys)[..|xs + ys| - 1] == xs + ys[..|ys| - 1];
    }
  }

  lemma NextDeliveryLogs(st: R.State, mid: R.State, s: int, n: nat, cmd: R.Command, refuse: set<string>, now: int,
                         earlier: seq<Log.Entry>)
    returns (entries: seq<Log.Entry>)
    requires s in st.replicas && n < |st.replicas[s]| && mid.stores.Keys == st.stores.Keys
    requires s in mid.replicas && n < |mid.replicas[s]| && mid.replicas[s][n] == st.replicas[s][n]
    requires mid.log == Log.AppendAll(st.log, earlier)
    requires LogsCalls(earlier, Called(st.replicas[s][..n], st.stores.Keys), s, cmd, refuse, now)
    ensures R.Deliver(mid, s, n, cmd, refuse, now).log == Log.AppendAll(st.log, entries)
    ensures LogsCalls(entries, Called(st.replicas[s][..n + 1], st.stores.Keys), s, cmd, refuse, now)
  {
    var list := st.replicas[s];
    var called := if IsCalled(list[n], st.stores.Keys) then [list[n].address] else [];
    var more := DeliverLogs(mid, s, n, cmd, refuse, now);
    entries := earlier + more;
    AppendInTurn(st.log, earlier, more);
    CalledNext(list, n, st.stores.Keys);
    LogsCallsJoin(earlier, more, Called(list[..n], st.stores.Keys), called, s, cmd, refuse, now);
  }

  /** The replicas that a fan-out has not reached yet. */
  lemma SameSoFar(st: R.State, s: int, n: nat, cmd: R.Command, refuse: set<string>, now: int)
    requires s in st.replicas && n < |st.replicas[s]| && R.UniqueAddresses(st.replicas[s])
    ensures var mid := R.FanOut(st, s, n, cmd, refuse, now);
      && mid.stores.Keys == st.stores.Keys && s in mid.replicas && n < |mid.replicas[s]|
      && mid.replicas[s][n] == st.replicas[s][n]
  {
    FanOutDelivers(st, s, n, cmd, refuse, now);
  }

  /** A fan-out logs its calls. */
  lemma {:induction false} FanOutLogs(st: R.State, s: int, n: nat, cmd: R.Command, refuse: set<string>, now: int)
    returns (entries: seq<Log.Entry>)
    requires s in st.replicas && n <= |st.replicas[s]| && R.UniqueAddresses(st.replicas[s])
    ensures R.FanOut(st, s, n, cmd, refuse, now).log == Log.AppendAll(st.log, entries)
    ensures LogsCalls(entries, Called(st.replicas[s][..n], st.stores.Keys), s, cmd, refuse, now)
  {
    if n == 0 {
      entries := [];
    } else {
      var mid := R.FanOut(st, s, n - 1, cmd, refuse, now);
      var earlier := FanOutLogs(st, s, n - 1, cmd, refuse, now);
      SameSoFar(st, s, n - 1, cmd, refuse, now);
      entries := NextDeliveryLogs(st, mid, s, n - 1, cmd, refuse, now, earlier);
    }
  }

  // ----- Coverage -----

  ghost predicate Covers(db: Db, store: Db, names: set<string>) {
    forall i, e :: i in names && Visible(db, i, e).Some? ==> Visible(store, i, e) == Visible(db, i, e)
  }

  ghost predicate ReplicaCovers(st: State, names: set<string>, s: int, r: R.Replica) {
    r.status == R.Active && r.role == R.Secondary ==>
      r.address in st.repl.stores && (s in st.dbs ==> Covers(st.dbs[s], st.repl.stores[r.address], names))
  }

  ghost predicate Covered(st: State, names: set<string>) {
    forall s, k :: s in st.repl.replicas && 0 <= k < |st.repl.replicas[s]| ==>
      ReplicaCovers(st, names, s, st.repl.replicas[s][k])
  }

  ghost predicate AddressesUnique(repl: R.State) {
    forall s :: s in repl.replicas ==> R.UniqueAddresses(repl.replicas[s])
  }

  ghost predicate TouchesOnly(w: Write, route: Route, s: int) {
    forall e :: Touches(w, e) ==> route(e) == Some(s)
  }

  lemma WriteOnBoth(db: Db, store: Db, w: Write, names: set<string>)
    requires SafeNames(names) && w.index in names && Covers(db, store, names)
    ensures Covers(Apply(db, w), Apply(store, w), names)
    ensures !w.Put? ==> Covers(Apply(db, w), store, names)
  {
    forall i, e | i in names && Visible(Apply(db, w), i, e).Some?
      ensures Visible(Apply(store, w), i, e) == Visible(Apply(db, w), i, e)
      ensures !w.Put? ==> Visible(store, i, e) == Visible(Apply(db, w), i, e)
    {
      assert !Clash(w.index, i);
      VisibleAfterWrite(db, w, i, e);
      VisibleAfterWrite(store, w, i, e);
    }
  }

  /** A write for another shard does not disturb what a shared store holds for this one. */
  lemma WriteForOtherShard(db: Db, store: Db, w: Write, route: Route, s: int, t: int, names: set<string>)
    requires SafeNames(names) && w.index in names && Covers(db, store, names)
    requires TouchesOnly(w, route, s) && s != t
    requires forall i, e :: i in names && e in Members(db, i) ==> route(e) == Some(t)
    ensures Covers(db, Apply(store, w), names)
  {
    forall i, e | i in names && Visible(db, i, e).Some? ensures Visible(Apply(store, w), i, e) == Visible(db, i, e) {
      assert !Clash(w.index, i);
      assert e in Members(db, i);
      assert !Touches(w, e);
      VisibleAfterWrite(store, w, i, e);
    }
  }

  lemma CommitKeepsAddresses(st: State, s: int, cmd: R.Command, env: Env)
    requires AddressesUnique(st.repl)
    ensures AddressesUnique(Commit(st, s, cmd, env).repl)
  {
    if s in st.repl.replicas {
      var list := st.repl.replicas[s];
      FanOutDelivers(st.repl, s, |list|, cmd, env.replicaRefuse(s), env.now);
      SameAddressesUnique(list, Commit(st, s, cmd, env).repl.replicas[s]);
    }
  }

  lemma CommitCovers(st: State, s: int, cmd: R.Command, env: Env, route: Route, names: set<string>)
    requires SafeNames(names) && cmd.Effect().index in names && Routed(st, route, names)
    requires Covered(st, names) && AddressesUnique(st.repl) && TouchesOnly(cmd.Effect(), route, s)
    ensures Covered(Commit(st, s, cmd, env), names) && AddressesUnique(Commit(st, s, cmd, env).repl)
  {
    var after := Commit(st, s, cmd, env);
    CommitKeepsAddresses(st, s, cmd, env);
    if s !in st.repl.replicas {
      forall t, k | t in after.repl.replicas && 0 <= k < |after.repl.replicas[t]|
        ensures ReplicaCovers(after, names, t, after.repl.replicas[t][k])
      {
        assert ReplicaCovers(st, names, t, st.repl.replicas[t][k]);
      }
    } else {
      var list := st.repl.replicas[s];
      FanOutDelivers(st.repl, s, |list|, cmd, env.replicaRefuse(s), env.now);
      forall t, k | t in after.repl.replicas && 0 <= k < |after.repl.replicas[t]|
        ensures ReplicaCovers(after, names, t, after.repl.replicas[t][k])
      {
        assert ReplicaCovers(st, names, t, st.repl.replicas[t][k]);
        if t == s {
          OwnReplicaCovers(st, after, s, k, cmd, env, names);
        } else {
          OtherReplicaCovers(st, after, s, t, k, cmd, env, route, names);
        }
      }
    }
  }

  lemma OwnReplicaCovers(st: State, after: State, s: int, k: nat, cmd: R.Command, env: Env, names: set<string>)
    requires SafeNames(names) && cmd.Effect().index in names
    requires s in st.repl.replicas && k < |st.repl.replicas[s]| && s in after.repl.replicas
    requires ReplicaCovers(st, names, s, st.repl.replicas[s][k])
    requires after.dbs == WriteAt(st, s, cmd.Effect()).dbs
    requires EntriesDelivered(st.repl.replicas[s], after.repl.replicas[s], |st.repl.replicas[s]|,
      st.repl.stores.Keys, cmd, env.replicaRefuse(s), env.now)
    requires StoresDelivered(st.repl.stores, after.repl.stores, st.repl.replicas[s], |st.repl.replicas[s]|, cmd,
      env.replicaRefuse(s))
    ensures ReplicaCovers(after, names, s, after.repl.replicas[s][k])
  {
    var list := st.repl.replicas[s];
    var r, a := list[k], list[k].address;
    var r' := after.repl.replicas[s][k];
    if r'.status == R.Active && r'.role == R.Secondary {
      assert r.status == R.Active && r.role == R.Secondary;
      if s in st.dbs {
        WriteOnBoth(st.dbs[s], st.repl.stores[a], cmd.Effect(), names);
        if a !in env.replicaRefuse(s) {
          assert Receives(list, |list|, a, env.replicaRefuse(s));
        }
      }
    }
  }

  lemma OtherReplicaCovers(st: State, after: State, s: int, t: int, k: nat, cmd: R.Command, env: Env, route: Route,
                           names: set<string>)
    requires SafeNames(names) && cmd.Effect().index in names && Routed(st, route, names)
    requires TouchesOnly(cmd.Effect(), route, s) && s != t && s in st.repl.replicas
    requires t in st.repl.replicas && t in after.repl.replicas && st.repl.replicas[t] == after.repl.replicas[t]
    requires k < |st.repl.replicas[t]| && ReplicaCovers(st, names, t, st.repl.replicas[t][k])
    requires after.dbs == WriteAt(st, s, cmd.Effect()).dbs
    requires StoresDelivered(st.repl.stores, after.repl.stores, st.repl.replicas[s], |st.repl.replicas[s]|, cmd,
      env.replicaRefuse(s))
    ensures ReplicaCovers(after, names, t, after.repl.replicas[t][k])
  {
    var r := st.repl.replicas[t][k];
    if r.status == R.Active && r.role == R.Secondary && t in st.dbs {
      WriteForOtherShard(st.dbs[t], st.repl.stores[r.address], cmd.Effect(), route, s, t, names);
    }
  }

  /** Shrinking what a shard shows, without touching the replicas, keeps coverage. */
  lemma ShrinkCovers(st: State, after: State, hit: set<int>, w: int -> Write, names: set<string>)
    requires SafeNames(names) && Writes(st, after, hit, w) && Covered(st, names) && after.repl == st.repl
    requires forall s :: s in hit ==> w(s).index in names && !w(s).Put?
    ensures Covered(after, names)
  {
    forall s, k | s in after.repl.replicas && 0 <= k < |after.repl.replicas[s]|
      ensures ReplicaCovers(after, names, s, after.repl.replicas[s][k])
    {
      var r := st.repl.replicas[s][k];
      assert ReplicaCovers(st, names, s, r);
      if s in hit && r.status == R.Active && r.role == R.Secondary {
        WriteOnBoth(st.dbs[s], st.repl.stores[r.address], w(s), names);
      }
    }
  }

  /** The invariant of the run: routing, coverage, unique addresses. */
  ghost predicate Sound(st: State, route: Route, names: set<string>) {
    Routed(st, route, names) && Covered(st, names) && AddressesUnique(st.repl)
  }

  lemma CommitSound(st: State, s: int, cmd: R.Command, env: Env, route: Route, names: set<string>)
    requires SafeNames(names) && cmd.Effect().index in names && Sound(st, route, names)
    requires TouchesOnly(cmd.Effect(), route, s) && s in st.dbs
    ensures Sound(Commit(st, s, cmd, env), route, names)
  {
    CommitCovers(st, s, cmd, env, route, names);
    assert Local(cmd.Effect(), route, s) by {
      TouchesAllLocal(cmd.Effect(), route, s);
    }
    WritesRouted(st, Commit(st, s, cmd, env), route, {s}, _ => cmd.Effect(), names);
  }

  lemma TouchesAllLocal(w: Write, route: Route, s: int)
    requires TouchesOnly(w, route, s)
    ensures Local(w, route, s)
  {
    if w.Put? {
      forall v | v in w.vectors ensures route(v.id) == Some(s) {
        LastWithIsMember(w.vectors, v.id);
        assert Touches(w, v.id);
      }
    }
  }

  lemma {:induction false} CommitAllSound(
      st: State, order: seq<int>, cmd: int -> R.Command, env: Env, route: Route, names: set<string>)
    requires SafeNames(names) && Sound(st, route, names)
    requires forall s :: cmd(s).Effect().index in names && TouchesOnly(cmd(s).Effect(), route, s)
    ensures Sound(CommitAll(st, order, cmd, env), route, names)
  {
    if order != [] {
      var init, s := order[..|order| - 1], order[|order| - 1];
      CommitAllSound(st, init, cmd, env, route, names);
      var before := CommitAll(st, init, cmd, env);
      if Accepts(before, s, env) {
        CommitSound(before, s, cmd(s), env, route, names);
      }
    }
  }

  lemma ClearedSound(st: State, route: Route, index: string, id: string, names: set<string>)
    requires SafeNames(names) && index in names && Sound(st, route, names)
    requires route(id).Some? && route(id).value in st.dbs
    ensures Sound(WriteAt(st, route(id).value, Remove(index, id)), route, names)
  {
    var after := WriteAt(st, route(id).value, Remove(index, id));
    forall s, k | s in after.repl.replicas && 0 <= k < |after.repl.replicas[s]|
      ensures ReplicaCovers(after, names, s, after.repl.replicas[s][k])
    {
      assert ReplicaCovers(st, names, s, st.repl.replicas[s][k]);
    }
  }

  lemma StoreSound(st: State, route: Route, index: string, v: StoredVector, env: Env, names: set<string>)
    requires SafeNames(names) && index in names && Sound(st, route, names) && Home(st, route, v.id).Some?
    ensures Sound(Commit(st, route(v.id).value, R.Insert(index, v), env), route, names)
  {
    forall e | Touches(Put(index, [v]), e) ensures route(e) == route(v.id) {
      SingleIsLast(v, e);
    }
    CommitSound(st, route(v.id).value, R.Insert(index, v), env, route, names);
  }

  lemma BatchTouches(index: string, vs: seq<StoredVector>, ids: seq<string>, route: Route, s: int)
    ensures TouchesOnly(InsertCommand(index, vs, route)(s).Effect(), route, s)
    ensures TouchesOnly(DeleteCommand(index, ids, route)(s).Effect(), route, s)
  {
    forall e ensures LastWith(Group(vs, route, s), e).Some? ==> route(e) == Some(s)
      ensures e in IdGroup(ids, route, s) ==> route(e) == Some(s)
    {
      GroupKeepsLast(vs, route, s, e);
      IdGroupRouted(ids, route, s, e);
    }
  }

  lemma UpdateSound(st: State, route: Route, req: Request, env: Env, names: set<string>)
    requires SafeNames(names) && req.Update? && req.index in names && Sound(st, route, names)
    ensures Sound(Step(st, route, req, env), route, names)
  {
    var Update(index, id, metadata, values) := req;
    var home := Home(st, route, id);
    if Fits(st, index, values) && home.Some? {
      var cleared := st;
      if home.value !in env.refuseDelete {
        cleared := WriteAt(st, home.value, Remove(index, id));
        ClearedSound(st, route, index, id, names);
      }
      if home.value !in env.refuse {
        StoreSound(cleared, route, index, StoredVector(id, metadata, env.now, values), env, names);
      }
    }
  }

  lemma BatchSound(st: State, route: Route, req: Request, env: Env, names: set<string>)
    requires SafeNames(names) && (req.BatchInsert? || req.BatchDelete?) && req.index in names
    requires Sound(st, route, names)
    ensures Sound(Step(st, route, req, env), route, names)
  {
    if req.BatchDelete? {
      forall s ensures TouchesOnly(DeleteCommand(req.index, req.ids, route)(s).Effect(), route, s) {
        BatchTouches(req.index, [], req.ids, route, s);
      }
      CommitAllSound(st, req.order, DeleteCommand(req.index, req.ids, route), env, route, names);
    } else if req.index in st.indexes {
      var vs := Fitting(req.items, st.indexes[req.index].dimension);
      forall s ensures TouchesOnly(InsertCommand(req.index, vs, route)(s).Effect(), route, s) {
        BatchTouches(req.index, vs, [], route, s);
      }
      CommitAllSound(st, req.order, InsertCommand(req.index, vs, route), env, route, names);
    }
  }

  lemma DropSound(st: State, route: Route, req: Request, env: Env, names: set<string>)
    requires SafeNames(names) && req.DropIndex? && req.index in names && Sound(st, route, names)
    ensures Sound(Step(st, route, req, env), route, names)
  {
    if req.index in st.indexes {
      var after, hit := Step(st, route, req, env), AcceptingShards(st, env);
      ShrinkCovers(st, after, hit, _ => Drop(req.index), names);
      WritesRouted(st, after, route, hit, _ => Drop(req.index), names);
    }
  }

  lemma StepSound(st: State, route: Route, req: Request, env: Env, names: set<string>)
    requires SafeNames(names) && req.index in names && Sound(st, route, names)
    ensures Sound(Step(st, route, req, env), route, names)
  {
    match req
    case Insert(index, id, metadata, values) =>
      var home := Home(st, route, id);
      if values != [] && Fits(st, index, values) && home.Some? && home.value !in env.refuse {
        StoreSound(st, route, index, StoredVector(id, metadata, env.now, values), env, names);
      }
    case Update(_, _, _, _) => UpdateSound(st, route, req, env, names);
    case BatchInsert(_, _, _) => BatchSound(st, route, req, env, names);
    case Delete(index, id) =>
      var home := Home(st, route, id);
      if home.Some? && home.value !in env.refuse {
        CommitSound(st, home.value, R.Delete(index, id), env, route, names);
      }
    case BatchDelete(_, _, _) => BatchSound(st, route, req, env, names);
    case CreateIndex(_, _) => SameDataSound(st, Step(st, route, req, env), route, names);
    case DropIndex(_) => DropSound(st, route, req, env, names);
  }

  lemma SameDataSound(st: State, after: State, route: Route, names: set<string>)
    requires Sound(st, route, names) && after.dbs == st.dbs && after.repl == st.repl
    ensures Sound(after, route, names)
  {
  }

  // ----- Changes of the replica table -----

  predicate IsFollower(r: R.Replica) {
    r.status == R.Active && r.role == R.Secondary
  }

  /** The shard has an active secondary at the address. */
  ghost predicate FollowedAt(repl: R.State, s: int, address: string) {
    s in repl.replicas &&
    exists k :: 0 <= k < |repl.replicas[s]| && repl.replicas[s][k].address == address && IsFollower(repl.replicas[s][k])
  }

  /** The replica at position k is the one a promotion demotes. */
  predicate IsDemoted(repl: R.State, s: int, k: int) {
    s in repl.replicas && 0 <= k < |repl.replicas[s]| && repl.replicas[s][k].address == R.OldPrimary(repl, s)
  }

  /**
   * What a change of the replica table must find. A registration that goes through puts its store in the
   * place of any older one at the address, so the store must cover its own shard if the node is to follow
   * it, and every shard with an active secondary there. A promotion makes the old primary a secondary, so
   * an active one must cover the shard.
   */
  ghost predicate ChangeCovers(st: State, names: set<string>, e: Event) {
    match e
    case RegisterReplica(shard, node, connection) =>
      R.Admits(st.repl, shard, node.address, connection.Some?) ==>
        forall s :: s in st.dbs && (FollowedAt(st.repl, s, node.address) || (s == shard && IsFollower(node))) ==>
          Covers(st.dbs[s], connection.value, names)
    case PromoteReplica(shard, address) =>
      R.Promotable(st.repl, shard, address) ==>
        forall k :: IsDemoted(st.repl, shard, k) ==>
          ReplicaCovers(st, names, shard, st.repl.replicas[shard][k].(role := R.Secondary))
    case _ => true
  }

  lemma RegisterCovers(st: State, route: Route, names: set<string>, e: Event)
    requires e.RegisterReplica? && Covered(st, names)
    ensures Covered(Next(st, route, e), names) <==> ChangeCovers(st, names, e)
  {
    var after, a := Next(st, route, e), e.node.address;
    if R.Admits(st.repl, e.shard, a, e.connection.Some?) {
      var list' := after.repl.replicas[e.shard];
      assert list'[|list'| - 1] == e.node;
      if Covered(after, names) {
        forall s | s in st.dbs && (FollowedAt(st.repl, s, a) || (s == e.shard && IsFollower(e.node)))
          ensures Covers(st.dbs[s], e.connection.value, names)
        {
          RegisteredCovers(st, after, names, e, s);
        }
      }
      if ChangeCovers(st, names, e) {
        forall s, k | s in after.repl.replicas && 0 <= k < |after.repl.replicas[s]|
          ensures ReplicaCovers(after, names, s, after.repl.replicas[s][k])
        {
          EntryCovers(st, after, names, e, s, k);
        }
      }
    } else {
      forall s, k | s in after.repl.replicas && 0 <= k < |after.repl.replicas[s]|
        ensures ReplicaCovers(after, names, s, after.repl.replicas[s][k])
      {
        assert ReplicaCovers(st, names, s, st.repl.replicas[s][k]);
      }
    }
  }

  /** A registered replica, or an older one at the address, shows the new store. */
  lemma RegisteredCovers(st: State, after: State, names: set<string>, e: Event, s: int)
    requires e.RegisterReplica? && R.Admits(st.repl, e.shard, e.node.address, e.connection.Some?)
    requires after == st.(repl := R.Register(st.repl, e.shard, e.node, e.connection).0) && Covered(after, names)
    requires s in st.dbs && (FollowedAt(st.repl, s, e.node.address) || (s == e.shard && IsFollower(e.node)))
    ensures Covers(st.dbs[s], e.connection.value, names)
  {
    var list' := after.repl.replicas[e.shard];
    if FollowedAt(st.repl, s, e.node.address) {
      var k :| 0 <= k < |st.repl.replicas[s]| && st.repl.replicas[s][k].address == e.node.address &&
        IsFollower(st.repl.replicas[s][k]);
      assert ReplicaCovers(after, names, s, after.repl.replicas[s][k]);
    } else {
      assert ReplicaCovers(after, names, s, list'[|list'| - 1]);
    }
  }

  lemma EntryCovers(st: State, after: State, names: set<string>, e: Event, s: int, k: nat)
    requires e.RegisterReplica? && R.Admits(st.repl, e.shard, e.node.address, e.connection.Some?)
    requires after == st.(repl := R.Register(st.repl, e.shard, e.node, e.connection).0)
    requires Covered(st, names) && ChangeCovers(st, names, e)
    requires s in after.repl.replicas && k < |after.repl.replicas[s]|
    ensures ReplicaCovers(after, names, s, after.repl.replicas[s][k])
  {
    var r := after.repl.replicas[s][k];
    if s in st.repl.replicas && k < |st.repl.replicas[s]| {
      assert r == st.repl.replicas[s][k];
      assert ReplicaCovers(st, names, s, r);
      assert IsFollower(r) && r.address == e.node.address ==> FollowedAt(st.repl, s, e.node.address);
    } else {
      assert s == e.shard && r == e.node;
    }
  }

  lemma PromoteCovers(st: State, route: Route, names: set<string>, e: Event)
    requires e.PromoteReplica? && Covered(st, names)
    ensures Covered(Next(st, route, e), names) <==> ChangeCovers(st, names, e)
  {
    var after := Next(st, route, e);
    forall s, k | s in st.repl.replicas && 0 <= k < |st.repl.replicas[s]|
      ensures s in after.repl.replicas && k < |after.repl.replicas[s]|
      ensures ReplicaCovers(after, names, s, after.repl.replicas[s][k]) <==>
        (s == e.shard && R.Promotable(st.repl, s, e.address) && IsDemoted(st.repl, s, k) ==>
          ReplicaCovers(st, names, s, st.repl.replicas[s][k].(role := R.Secondary)))
    {
      assert ReplicaCovers(st, names, s, st.repl.replicas[s][k]);
    }
  }

  lemma LagCheckCovers(st: State, route: Route, names: set<string>, e: Event)
    requires (e.CheckReplicas? || e.MarkReplica?) && Covered(st, names)
    ensures Covered(Next(st, route, e), names)
  {
    var after := Next(st, route, e);
    forall s, k | s in after.repl.replicas && 0 <= k < |after.repl.replicas[s]|
      ensures ReplicaCovers(after, names, s, after.repl.replicas[s][k])
    {
      assert ReplicaCovers(st, names, s, st.repl.replicas[s][k]);
    }
  }

  /** Every change keeps addresses unique, and coverage exactly under its condition. */
  lemma ChangeSound(st: State, route: Route, names: set<string>, e: Event)
    requires Sound(st, route, names) && !e.Serve?
    ensures var after := Next(st, route, e);
      && (Covered(after, names) <==> ChangeCovers(st, names, e))
      && Routed(after, route, names) && AddressesUnique(after.repl)
  {
    ChangeKeepsAddresses(st, route, e);
    match e
    case CheckShards(_) =>
      CoveredSameData(st, Next(st, route, e), names);
    case CheckReplicas(_, _) => LagCheckCovers(st, route, names, e);
    case RegisterReplica(_, _, _) => RegisterCovers(st, route, names, e);
    case PromoteReplica(_, _) => PromoteCovers(st, route, names, e);
    case MarkReplica(_, _) => LagCheckCovers(st, route, names, e);
  }

  lemma CoveredSameData(st: State, after: State, names: set<string>)
    requires Covered(st, names) && after.dbs == st.dbs && after.repl == st.repl
    ensures Covered(after, names)
  {
  }

  /** No event but a registration changes the addresses of a list. */
  lemma SameAddresses(st: State, route: Route, e: Event, s: int)
    requires s in st.repl.replicas && !e.Serve? && !(e.RegisterReplica? && e.shard == s)
    ensures var after := Next(st, route, e).repl;
      && s in after.replicas && |after.replicas[s]| == |st.repl.replicas[s]|
      && forall i :: 0 <= i < |st.repl.replicas[s]| ==> after.replicas[s][i].address == st.repl.replicas[s][i].address
  {
  }

  lemma ChangeKeepsAddresses(st: State, route: Route, e: Event)
    requires AddressesUnique(st.repl) && !e.Serve?
    ensures AddressesUnique(Next(st, route, e).repl)
  {
    var after := Next(st, route, e).repl;
    forall s | s in after.replicas ensures R.UniqueAddresses(after.replicas[s]) {
      if e.RegisterReplica? && s == e.shard {
        RegisterKeepsAddresses(st.repl, s, e.node, e.connection);
      } else {
        SameAddresses(st, route, e, s);
        SameAddressesUnique(st.repl.replicas[s], after.replicas[s]);
      }
    }
  }

  lemma RegisterKeepsAddresses(repl: R.State, shard: int, node: R.Replica, connection: Option<Db>)
    requires AddressesUnique(repl)
    ensures R.UniqueAddresses(R.Register(repl, shard, node, connection).0.replicas[shard])
  {
    if shard in repl.replicas {
      assert R.UniqueAddresses(repl.replicas[shard]);
    }
  }

  // ----- Runs -----

  /** Every registered replica has an adapter. */
  ghost predicate HasAdapters(repl: R.State) {
    forall s, k :: s in repl.replicas && 0 <= k < |repl.replicas[s]| ==> repl.replicas[s][k].address in repl.stores
  }

  /** Registering replicas, in any order and with any failures, gives unique addresses and adapters. */
  lemma {:induction false} RegistrationsReady(events: seq<R.Event>)
    requires forall i :: 0 <= i < |events| ==> events[i].Registering?
    ensures AddressesUnique(R.Run(events)) && HasAdapters(R.Run(events))
  {
    if events != [] {
      RegistrationsReady(events[..|events| - 1]);
    }
  }

  lemma InitialSound(st: State, route: Route, names: set<string>)
    requires Initial(st) && AddressesUnique(st.repl) && HasAdapters(st.repl)
    ensures Sound(st, route, names)
  {
    InitialRepresents(st, route, names);
    forall s, k | s in st.repl.replicas && 0 <= k < |st.repl.replicas[s]|
      ensures ReplicaCovers(st, names, s, st.repl.replicas[s][k])
    {
      if s in st.dbs {
        forall i, e ensures Visible(st.dbs[s], i, e).None? {
        }
      }
    }
  }

  ghost predicate CoveredThroughout(st: State, route: Route, events: seq<Event>, names: set<string>) {
    Covered(Run(st, route, events), names) &&
    (events != [] ==> CoveredThroughout(st, route, events[..|events| - 1], names))
  }

  /** Every registration and promotion of the run finds what it must. */
  ghost predicate ChangesCover(st: State, route: Route, events: seq<Event>, names: set<string>) {
    events == [] ||
    (ChangesCover(st, route, events[..|events| - 1], names) &&
     ChangeCovers(Run(st, route, events[..|events| - 1]), names, events[|events| - 1]))
  }

  /**
   * In all states of a run each active secondary holds every vector its shard makes searchable, with the
   * same value, if and only if every registration and promotion of the run finds what it must. Requests,
   * health checks, lag checks and late marks never matter.
   */
  lemma {:induction false} ReplicaCoverage(st: State, route: Route, events: seq<Event>, names: set<string>)
    requires SafeNames(names) && UsesNames(events, names) && Initial(st)
    requires AddressesUnique(st.repl) && HasAdapters(st.repl)
    ensures CoveredThroughout(st, route, events, names) <==> ChangesCover(st, route, events, names)
    ensures ChangesCover(st, route, events, names) ==> Sound(Run(st, route, events), route, names)
  {
    if events == [] {
      InitialSound(st, route, names);
    } else {
      var init, last := events[..|events| - 1], events[|events| - 1];
      ReplicaCoverage(st, route, init, names);
      var before := Run(st, route, init);
      if ChangesCover(st, route, init, names) {
        if last.Serve? {
          StepSound(before, route, last.req, last.env, names);
        } else {
          ChangeSound(before, route, names, last);
        }
      }
    }
  }
}
