/**
 * Batch deletes over several shards: the order in which the shards are handled does not matter, down to
 * every replica, although shards may share replica stores.
 */
module BatchDeletes {
  import opened Common
  import opened Store
  import opened Service
  import opened Coverage
  import R = Replication

  datatype Job = Job(index: string, ids: seq<string>, route: Route, env: Env)

  function CommandOf(job: Job): int -> R.Command {
    DeleteCommand(job.index, job.ids, job.route)
  }

  /** The ids of the batch that are routed to the given shards. */
  function RoutedTo(job: Job, shards: set<int>): set<string> {
    set id | id in job.ids && job.route(id).Some? && job.route(id).value in shards
  }

  function Without(db: Db, index: string, ids: set<string>): Db {
    db.(vectors := db.vectors - set id | id in ids :: VectorKey(index, id))
  }

  /** The shards among these whose deletes reach the store at the address. */
  ghost function Reaching(repl: R.State, job: Job, shards: set<int>, a: string): set<int> {
    set s | s in shards && s in repl.replicas &&
      Receives(repl.replicas[s], |repl.replicas[s]|, a, job.env.replicaRefuse(s))
  }

  /** The state reached from st when exactly these shards have carried out their deletes. */
  ghost predicate Deleted(st: State, mid: State, job: Job, shards: set<int>) {
    && mid.active == st.active && mid.indexes == st.indexes
    && mid.repl.primary == st.repl.primary && mid.repl.log == st.repl.log
    && DbsDeleted(st, mid, job, shards)
    && EntriesDeleted(st.repl, mid.repl, job, shards)
    && StoresDeleted(st.repl, mid.repl, job, shards)
  }

  ghost predicate DbsDeleted(st: State, mid: State, job: Job, shards: set<int>) {
    mid.dbs.Keys == st.dbs.Keys &&
    forall s :: s in st.dbs ==>
      (mid.dbs[s] == if s in shards then Apply(st.dbs[s], CommandOf(job)(s).Effect()) else st.dbs[s])
  }

  ghost predicate EntriesDeleted(repl: R.State, mid: R.State, job: Job, shards: set<int>) {
    mid.replicas.Keys == repl.replicas.Keys &&
    forall s :: s in repl.replicas ==> ListDeleted(repl, mid.replicas[s], job, shards, s)
  }

  ghost predicate ListDeleted(repl: R.State, after: seq<R.Replica>, job: Job, shards: set<int>, s: int)
    requires s in repl.replicas
  {
    var list := repl.replicas[s];
    EntriesDelivered(list, after, if s in shards then |list| else 0, repl.stores.Keys, CommandOf(job)(s),
      job.env.replicaRefuse(s), job.env.now)
  }

  ghost predicate StoresDeleted(repl: R.State, mid: R.State, job: Job, shards: set<int>) {
    mid.stores.Keys == repl.stores.Keys &&
    forall a :: a in repl.stores ==>
      mid.stores[a] == Without(repl.stores[a], job.index, RoutedTo(job, Reaching(repl, job, shards, a)))
  }

  lemma DeletedDetermines(st: State, a: State, b: State, job: Job, shards: set<int>)
    requires Deleted(st, a, job, shards) && Deleted(st, b, job, shards)
    ensures a == b
  {
    forall s | s in st.repl.replicas ensures a.repl.replicas[s] == b.repl.replicas[s] {
      assert ListDeleted(st.repl, a.repl.replicas[s], job, shards, s);
      assert ListDeleted(st.repl, b.repl.replicas[s], job, shards, s);
    }
    assert a.repl.replicas == b.repl.replicas;
    assert a.repl.stores == b.repl.stores;
    forall s | s in st.dbs ensures a.dbs[s] == b.dbs[s] {
    }
  }

  lemma NothingDeleted(st: State, job: Job)
    ensures Deleted(st, st, job, {})
  {
    forall a | a in st.repl.stores
      ensures st.repl.stores[a] == Without(st.repl.stores[a], job.index, RoutedTo(job, Reaching(st.repl, job, {}, a)))
    {
      assert RoutedTo(job, Reaching(st.repl, job, {}, a)) == {};
    }
  }

  /** Deleting the group of one more shard from a store. */
  lemma GroupWithout(db: Db, job: Job, shards: set<int>, s: int)
    ensures Apply(Without(db, job.index, RoutedTo(job, shards)), CommandOf(job)(s).Effect()) ==
      Without(db, job.index, RoutedTo(job, shards + {s}))
  {
    var group := IdGroup(job.ids, job.route, s);
    forall id ensures id in RoutedTo(job, shards + {s}) <==> id in RoutedTo(job, shards) || id in group {
      IdGroupRouted(job.ids, job.route, s, id);
    }
    var before := set id | id in RoutedTo(job, shards) :: VectorKey(job.index, id);
    var more := set id | id in group :: VectorKey(job.index, id);
    assert (set id | id in RoutedTo(job, shards + {s}) :: VectorKey(job.index, id)) == before + more;
    assert db.vectors - before - more == db.vectors - (before + more);
  }

  lemma {:induction false} DeletesKeepLog(mid: R.State, s: int, n: nat, cmd: R.Command, refuse: set<string>, now: int)
    requires cmd.BatchDelete?
    ensures R.FanOut(mid, s, n, cmd, refuse, now).log == mid.log
  {
    if n > 0 {
      DeletesKeepLog(mid, s, n - 1, cmd, refuse, now);
    }
  }

  lemma ReachesOneMore(repl: R.State, job: Job, shards: set<int>, s: int, a: string)
    requires s !in shards
    ensures Reaching(repl, job, shards + {s}, a) == Reaching(repl, job, shards, a) +
      if s in repl.replicas && Receives(repl.replicas[s], |repl.replicas[s]|, a, job.env.replicaRefuse(s)) then {s}
      else {}
  {
  }

  /** One store, before and after the delete of one more shard. */
  lemma StoreDeletes(repl: R.State, store: Db, job: Job, shards: set<int>, s: int, a: string)
    requires s !in shards && s in repl.replicas && a in repl.stores
    requires store == Without(repl.stores[a], job.index, RoutedTo(job, Reaching(repl, job, shards, a)))
    ensures var list, refuse := repl.replicas[s], job.env.replicaRefuse(s);
      (if Receives(list, |list|, a, refuse) then Apply(store, CommandOf(job)(s).Effect()) else store) ==
        Without(repl.stores[a], job.index, RoutedTo(job, Reaching(repl, job, shards + {s}, a)))
  {
    var reached := Reaching(repl, job, shards, a);
    ReachesOneMore(repl, job, shards, s, a);
    GroupWithout(repl.stores[a], job, reached, s);
    assert reached + {} == reached;
  }

  /** The replica side of one shard's delete. */
  lemma FanOutDeletes(repl: R.State, mid: R.State, job: Job, shards: set<int>, s: int)
    requires EntriesDeleted(repl, mid, job, shards) && StoresDeleted(repl, mid, job, shards)
    requires s !in shards && s in repl.replicas && R.UniqueAddresses(repl.replicas[s])
    ensures var after := R.Replicate(mid, s, CommandOf(job)(s), job.env.replicaRefuse(s), job.env.now);
      && EntriesDeleted(repl, after, job, shards + {s}) && StoresDeleted(repl, after, job, shards + {s})
      && after.primary == mid.primary && after.log == mid.log
  {
    var list, cmd, refuse := repl.replicas[s], CommandOf(job)(s), job.env.replicaRefuse(s);
    var after := R.Replicate(mid, s, cmd, refuse, job.env.now);
    assert ListDeleted(repl, mid.replicas[s], job, shards, s);
    assert mid.replicas[s] == list;
    FanOutDelivers(mid, s, |list|, cmd, refuse, job.env.now);
    DeletesKeepLog(mid, s, |list|, cmd, refuse, job.env.now);
    forall t | t in repl.replicas ensures ListDeleted(repl, after.replicas[t], job, shards + {s}, t) {
      assert ListDeleted(repl, mid.replicas[t], job, shards, t);
    }
    forall a | a in repl.stores
      ensures after.stores[a] == Without(repl.stores[a], job.index, RoutedTo(job, Reaching(repl, job, shards + {s}, a)))
    {
      StoreDeletes(repl, mid.stores[a], job, shards, s, a);
    }
  }

  /** A shard without replicas. */
  lemma NoReplicasDelete(repl: R.State, mid: R.State, job: Job, shards: set<int>, s: int)
    requires EntriesDeleted(repl, mid, job, shards) && StoresDeleted(repl, mid, job, shards)
    requires s !in shards && s !in repl.replicas
    ensures EntriesDeleted(repl, mid, job, shards + {s}) && StoresDeleted(repl, mid, job, shards + {s})
  {
    forall t | t in repl.replicas ensures ListDeleted(repl, mid.replicas[t], job, shards + {s}, t) {
      assert ListDeleted(repl, mid.replicas[t], job, shards, t);
    }
    forall a | a in repl.stores ensures Reaching(repl, job, shards + {s}, a) == Reaching(repl, job, shards, a) {
      ReachesOneMore(repl, job, shards, s, a);
    }
  }

  lemma CommitDeletes(st: State, mid: State, job: Job, shards: set<int>, s: int)
    requires Deleted(st, mid, job, shards) && AddressesUnique(st.repl) && s !in shards
    ensures Deleted(st, Commit(mid, s, CommandOf(job)(s), job.env), job, shards + {s})
  {
    if s in st.repl.replicas {
      FanOutDeletes(st.repl, mid.repl, job, shards, s);
    } else {
      NoReplicasDelete(st.repl, mid.repl, job, shards, s);
    }
  }

  lemma {:induction false} CommitAllDeletes(st: State, job: Job, order: seq<int>)
    requires NoDuplicates(order) && AddressesUnique(st.repl)
    ensures Deleted(st, CommitAll(st, order, CommandOf(job), job.env), job, AcceptedIn(st, order, job.env))
  {
    if order == [] {
      NothingDeleted(st, job);
    } else {
      var init, s := order[..|order| - 1], order[|order| - 1];
      assert order == init + [s] && s !in init;
      CommitAllDeletes(st, job, init);
      var before, accepted := CommitAll(st, init, CommandOf(job), job.env), AcceptedIn(st, init, job.env);
      if Accepts(st, s, job.env) {
        CommitDeletes(st, before, job, accepted, s);
        assert AcceptedIn(st, order, job.env) == accepted + {s};
      } else {
        assert AcceptedIn(st, order, job.env) == accepted;
      }
    }
  }

  /** A batch delete ends in the same state for any two orders of the shards. */
  lemma DeleteOrderIsIrrelevant(st: State, job: Job, order: seq<int>, other: seq<int>)
    requires NoDuplicates(order) && NoDuplicates(other) && ElementsOf(order) == ElementsOf(other)
    requires AddressesUnique(st.repl)
    ensures CommitAll(st, order, CommandOf(job), job.env) == CommitAll(st, other, CommandOf(job), job.env)
  {
    CommitAllDeletes(st, job, order);
    CommitAllDeletes(st, job, other);
    assert AcceptedIn(st, order, job.env) == AcceptedIn(st, other, job.env) by {
      assert forall s :: s in order <==> s in ElementsOf(order);
      assert forall s :: s in other <==> s in ElementsOf(other);
    }
    DeletedDetermines(st, CommitAll(st, order, CommandOf(job), job.env),
      CommitAll(st, other, CommandOf(job), job.env), job, AcceptedIn(st, order, job.env));
  }

  // ----- What a batch delete reports -----

  /** How many ids of the request, repetitions included, are routed to a shard that accepts. */
  function CountServed(st: State, ids: seq<string>, route: Route, env: Env): nat {
    if ids == [] then 0
    else
      var last := ids[|ids| - 1];
      CountServed(st, ids[..|ids| - 1], route, env) +
        if route(last).Some? && Accepts(st, route(last).value, env) then 1 else 0
  }

  lemma {:induction false} NoIdsNoneDeleted(st: State, order: seq<int>, route: Route, env: Env)
    ensures DeletedAll(st, order, [], route, env) == 0
  {
    if order != [] {
      NoIdsNoneDeleted(st, order[..|order| - 1], route, env);
    }
  }

  /** One more id is reported exactly when its shard is among those handled and accepts. */
  lemma {:induction false} OneMoreDeleted(st: State, order: seq<int>, ids: seq<string>, route: Route, env: Env)
    requires NoDuplicates(order) && ids != []
    ensures var init, last := ids[..|ids| - 1], ids[|ids| - 1];
      DeletedAll(st, order, ids, route, env) == DeletedAll(st, order, init, route, env) +
        if route(last).Some? && route(last).value in order && Accepts(st, route(last).value, env) then 1 else 0
  {
    if order != [] {
      var earlier, s := order[..|order| - 1], order[|order| - 1];
      assert order == earlier + [s] && s !in earlier;
      OneMoreDeleted(st, earlier, ids, route, env);
    }
  }

  /** The reported count is the number of ids that were served, whatever the order of the shards. */
  lemma {:induction false} DeletedCountsServed(st: State, order: seq<int>, ids: seq<string>, route: Route, env: Env)
    requires NoDuplicates(order) && Targets(ids, route) <= ElementsOf(order)
    ensures DeletedAll(st, order, ids, route, env) == CountServed(st, ids, route, env)
  {
    if ids == [] {
      NoIdsNoneDeleted(st, order, route, env);
    } else {
      var n := |ids| - 1;
      forall s | s in Targets(ids[..n], route) ensures s in ElementsOf(order) {
        var i :| 0 <= i < n && route(ids[i]).Some? && route(ids[i]).value == s;
        assert s in Targets(ids, route);
      }
      assert route(ids[n]).Some? ==> route(ids[n]).value in Targets(ids, route);
      DeletedCountsServed(st, order, ids[..n], route, env);
      OneMoreDeleted(st, order, ids, route, env);
    }
  }
}
