/**
 * BatchInsert (internal/server/vector_service.go): the order of the shards and the interleaving of the
 * parallel goroutines do not matter, and the batch equals inserting its vectors one by one.
 */
module Batch {
  import opened Common
  import opened Vectors
  import opened Store
  import opened Service
  import opened Coverage
  import R = Replication

  // ----- Storing a list of vectors is merging a map -----

  type ById = map<string, StoredVector>

  /** The last vector of each id. */
  function LastMap(vs: seq<StoredVector>): ById {
    if vs == [] then map[] else LastMap(vs[..|vs| - 1])[vs[|vs| - 1].id := vs[|vs| - 1]]
  }

  function IdOf(index: string, key: string): string {
    var n := |"vector:" + index + ":"|;
    if n <= |key| then key[n..] else ""
  }

  function Entries(index: string, m: ById): map<string, StoredVector> {
    map key | key in (set id | id in m :: VectorKey(index, id)) && IdOf(index, key) in m :: m[IdOf(index, key)]
  }

  function Stamps(m: ById): map<string, int> {
    map id | id in m :: m[id].timestamp
  }

  /** All vectors of the map stored at once. */
  function Merge(db: Db, index: string, m: ById): Db {
    if m == map[] then db
    else Db(db.vectors + Entries(index, m), db.ids[IdsKey(index) := Members(db, index) + Stamps(m)])
  }

  lemma IdOfKey(index: string, id: string)
    ensures IdOf(index, VectorKey(index, id)) == id
  {
  }

  lemma EntriesExtend(index: string, m: ById, v: StoredVector)
    ensures Entries(index, m[v.id := v]) == Entries(index, m)[VectorKey(index, v.id) := v]
  {
    forall id ensures IdOf(index, VectorKey(index, id)) == id {
      IdOfKey(index, id);
    }
  }

  lemma UpdateUnion<K, V>(a: map<K, V>, b: map<K, V>, k: K, v: V)
    ensures (a + b)[k := v] == a + b[k := v]
  {
  }

  lemma UpdateTwice<K, V>(m: map<K, V>, k: K, v: V, w: V)
    ensures m[k := v][k := w] == m[k := w]
  {
  }

  lemma MergeParts(db: Db, index: string, m: ById)
    ensures Merge(db, index, m).vectors == db.vectors + Entries(index, m)
    ensures Members(Merge(db, index, m), index) == Members(db, index) + Stamps(m)
  {
  }

  lemma StoreOneMergesVectors(db: Db, index: string, m: ById, v: StoredVector)
    ensures (db.vectors + Entries(index, m))[VectorKey(index, v.id) := v] ==
      db.vectors + Entries(index, m[v.id := v])
  {
    EntriesExtend(index, m, v);
    UpdateUnion(db.vectors, Entries(index, m), VectorKey(index, v.id), v);
  }

  lemma StoreOneMergesIds(db: Db, index: string, m: ById, v: StoredVector)
    ensures Merge(db, index, m).ids[IdsKey(index) := Members(Merge(db, index, m), index)[v.id := v.timestamp]] ==
      db.ids[IdsKey(index) := Members(db, index) + Stamps(m[v.id := v])]
  {
    var members := Members(db, index) + Stamps(m[v.id := v]);
    assert Stamps(m[v.id := v]) == Stamps(m)[v.id := v.timestamp];
    UpdateUnion(Members(db, index), Stamps(m), v.id, v.timestamp);
    MergeParts(db, index, m);
    UpdateTwice(db.ids, IdsKey(index), Members(db, index) + Stamps(m), members);
  }

  lemma StoreOneIs(before: Db, after: Db, index: string, v: StoredVector)
    requires after.vectors == before.vectors[VectorKey(index, v.id) := v]
    requires after.ids == before.ids[IdsKey(index) := Members(before, index)[v.id := v.timestamp]]
    ensures StoreOne(before, index, v) == after
  {
  }

  lemma MergeIs(db: Db, index: string, m: ById, id: string)
    requires id in m
    ensures Merge(db, index, m).vectors == db.vectors + Entries(index, m)
    ensures Merge(db, index, m).ids == db.ids[IdsKey(index) := Members(db, index) + Stamps(m)]
  {
  }

  lemma StoreOneMerges(db: Db, index: string, m: ById, v: StoredVector)
    ensures StoreOne(Merge(db, index, m), index, v) == Merge(db, index, m[v.id := v])
  {
    MergeParts(db, index, m);
    StoreOneMergesVectors(db, index, m, v);
    StoreOneMergesIds(db, index, m, v);
    MergeIs(db, index, m[v.id := v], v.id);
    StoreOneIs(Merge(db, index, m), Merge(db, index, m[v.id := v]), index, v);
  }

  lemma {:induction false} StoreAllMerges(db: Db, index: string, m: ById, vs: seq<StoredVector>)
    ensures StoreAll(Merge(db, index, m), index, vs) == Merge(db, index, m + LastMap(vs))
  {
    if vs == [] {
      assert m + map[] == m;
    } else {
      var init, last := vs[..|vs| - 1], vs[|vs| - 1];
      StoreAllMerges(db, index, m, init);
      StoreOneMerges(db, index, m + LastMap(init), last);
      UpdateUnion(m, LastMap(init), last.id, last);
    }
  }

  /** The part of the batch that goes to the given shards. */
  function Part(vs: seq<StoredVector>, route: Route, shards: set<int>): ById {
    map e | e in LastMap(vs) && route(e).Some? && route(e).value in shards :: LastMap(vs)[e]
  }

  lemma PartExtends(vs: seq<StoredVector>, route: Route, shards: set<int>)
    requires vs != []
    ensures var init, last := Part(vs[..|vs| - 1], route, shards), vs[|vs| - 1];
      Part(vs, route, shards) ==
        if route(last.id).Some? && route(last.id).value in shards then init[last.id := last] else init
  {
  }

  lemma {:induction false} GroupIsPart(vs: seq<StoredVector>, route: Route, s: int)
    ensures LastMap(Group(vs, route, s)) == Part(vs, route, {s})
  {
    if vs != [] {
      var init, last := vs[..|vs| - 1], vs[|vs| - 1];
      GroupIsPart(init, route, s);
      PartExtends(vs, route, {s});
      var g := Group(init, route, s);
      if route(last.id) == Some(s) {
        assert (g + [last])[..|g + [last]| - 1] == g;
      } else {
        assert g + [] == g;
      }
    }
  }

  lemma StorePart(db: Db, index: string, vs: seq<StoredVector>, route: Route, shards: set<int>, s: int)
    ensures Apply(Merge(db, index, Part(vs, route, shards)), Put(index, Group(vs, route, s))) ==
      Merge(db, index, Part(vs, route, shards + {s}))
  {
    StoreAllMerges(db, index, Part(vs, route, shards), Group(vs, route, s));
    GroupIsPart(vs, route, s);
    PartsUnite(vs, route, shards, {s});
  }

  lemma PartsUnite(vs: seq<StoredVector>, route: Route, some: set<int>, others: set<int>)
    ensures Part(vs, route, some) + Part(vs, route, others) == Part(vs, route, some + others)
  {
  }

  // ----- Progress of a batch: which shards are stored and which replicas are served -----

  datatype Job = Job(index: string, vs: seq<StoredVector>, route: Route, env: Env)

  function CommandOf(job: Job): int -> R.Command {
    InsertCommand(job.index, job.vs, job.route)
  }

  /** The shards whose vectors the deliveries made so far have put into the store at an address. */
  function Arrived(repl: R.State, sent: set<(int, int)>, address: string, refuse: int -> set<string>): set<int> {
    set s, k | (s, k) in sent && s in repl.replicas && 0 <= k < |repl.replicas[s]| &&
      repl.replicas[s][k].address == address && repl.replicas[s][k].status == R.Active &&
      repl.replicas[s][k].role == R.Secondary && address !in refuse(s) :: s
  }

  /** The state reached from st when exactly these shards are stored and these replicas served. */
  ghost predicate Progress(st: State, mid: State, job: Job, stored: set<int>, sent: set<(int, int)>) {
    && mid.active == st.active && mid.indexes == st.indexes
    && DbsProgress(st, mid, job, stored)
    && ReplProgress(st.repl, mid.repl, job, sent)
  }

  ghost predicate DbsProgress(st: State, mid: State, job: Job, stored: set<int>) {
    mid.dbs.Keys == st.dbs.Keys &&
    forall s :: s in st.dbs ==>
      (mid.dbs[s] == if s in stored then Apply(st.dbs[s], CommandOf(job)(s).Effect()) else st.dbs[s])
  }

  ghost predicate ReplProgress(repl: R.State, mid: R.State, job: Job, sent: set<(int, int)>) {
    && mid.primary == repl.primary && mid.log == repl.log
    && mid.replicas.Keys == repl.replicas.Keys
    && (forall s :: s in repl.replicas ==>
          EntriesProgress(repl.replicas[s], mid.replicas[s], s, repl.stores.Keys, job, sent))
    && StoresProgress(repl, mid, job, sent)
  }

  ghost predicate StoresProgress(repl: R.State, mid: R.State, job: Job, sent: set<(int, int)>) {
    mid.stores.Keys == repl.stores.Keys &&
    forall a :: a in repl.stores ==>
      (mid.stores[a] == Merge(repl.stores[a], job.index,
         Part(job.vs, job.route, Arrived(repl, sent, a, job.env.replicaRefuse))))
  }

  ghost predicate EntriesProgress(list: seq<R.Replica>, after: seq<R.Replica>, s: int, stores: set<string>, job: Job,
                                  sent: set<(int, int)>)
  {
    |after| == |list| &&
    forall k :: 0 <= k < |list| ==>
      (after[k] == if (s, k) in sent
       then DeliveredEntry(list[k], stores, CommandOf(job)(s), job.env.replicaRefuse(s), job.env.now) else list[k])
  }

  /** Progress determines the state, so any two ways to the same progress end in the same state. */
  lemma ProgressDetermines(st: State, a: State, b: State, job: Job, stored: set<int>, sent: set<(int, int)>)
    requires Progress(st, a, job, stored, sent) && Progress(st, b, job, stored, sent)
    ensures a == b
  {
    forall s | s in st.repl.replicas ensures a.repl.replicas[s] == b.repl.replicas[s] {
      var list := st.repl.replicas[s];
      assert EntriesProgress(list, a.repl.replicas[s], s, st.repl.stores.Keys, job, sent);
      assert EntriesProgress(list, b.repl.replicas[s], s, st.repl.stores.Keys, job, sent);
    }
    assert a.repl.replicas == b.repl.replicas;
    assert a.repl.stores == b.repl.stores;
    forall s | s in st.dbs ensures a.dbs[s] == b.dbs[s] {
    }
  }

  lemma NoProgressYet(st: State, job: Job)
    ensures Progress(st, st, job, {}, {})
  {
  }

  /** A goroutine stores its group on its shard. */
  lemma StoreProgress(st: State, mid: State, job: Job, stored: set<int>, sent: set<(int, int)>, s: int)
    requires Progress(st, mid, job, stored, sent) && s !in stored
    ensures Progress(st, WriteAt(mid, s, CommandOf(job)(s).Effect()), job, stored + {s}, sent)
  {
  }

  /** One delivery to a replica that has not been served yet. */
  lemma SendProgress(st: R.State, mid: R.State, job: Job, sent: set<(int, int)>, s: int, k: nat, more: set<(int, int)>)
    requires ReplProgress(st, mid, job, sent) && AddressesUnique(st)
    requires s in st.replicas && k < |st.replicas[s]| && (s, k) !in sent && more == sent + {(s, k)}
    ensures ReplProgress(st, R.Deliver(mid, s, k, CommandOf(job)(s), job.env.replicaRefuse(s), job.env.now), job, more)
  {
    var cmd, refuse := CommandOf(job)(s), job.env.replicaRefuse(s);
    var after := R.Deliver(mid, s, k, cmd, refuse, job.env.now);
    var list, entries := st.replicas[s], mid.replicas[s];
    assert EntriesProgress(list, entries, s, st.stores.Keys, job, sent);
    assert entries[k] == list[k];
    SameAddressesUnique(list, entries);
    DeliverRewrites(mid, s, k, cmd, refuse, job.env.now);
    forall t | t in st.replicas
      ensures EntriesProgress(st.replicas[t], after.replicas[t], t, st.stores.Keys, job, sent + {(s, k)})
    {
      assert EntriesProgress(st.replicas[t], mid.replicas[t], t, st.stores.Keys, job, sent);
    }
    SendStores(st, mid, job, sent, s, k);
    BatchKeepsLog(mid, s, k, cmd, refuse, job.env.now);
  }

  lemma SendStores(st: R.State, mid: R.State, job: Job, sent: set<(int, int)>, s: int, k: nat)
    requires ReplProgress(st, mid, job, sent)
    requires s in st.replicas && k < |st.replicas[s]| && (s, k) !in sent
    requires s in mid.replicas && k < |mid.replicas[s]| && mid.replicas[s][k] == st.replicas[s][k]
    ensures var after := R.Deliver(mid, s, k, CommandOf(job)(s), job.env.replicaRefuse(s), job.env.now);
      StoresProgress(st, after, job, sent + {(s, k)})
  {
    var after := R.Deliver(mid, s, k, CommandOf(job)(s), job.env.replicaRefuse(s), job.env.now);
    BatchKeepsLog(mid, s, k, CommandOf(job)(s), job.env.replicaRefuse(s), job.env.now);
    forall a | a in st.stores
      ensures a in after.stores && after.stores[a] == Merge(st.stores[a], job.index,
        Part(job.vs, job.route, Arrived(st, sent + {(s, k)}, a, job.env.replicaRefuse)))
    {
      SendStoresAt(st, mid, job, sent, s, k, a);
    }
  }

  lemma BatchKeepsLog(mid: R.State, s: int, k: nat, cmd: R.Command, refuse: set<string>, now: int)
    requires cmd.BatchInsert?
    ensures R.Deliver(mid, s, k, cmd, refuse, now).log == mid.log
    ensures R.Deliver(mid, s, k, cmd, refuse, now).stores.Keys == mid.stores.Keys
  {
  }

  lemma SendStoresAt(st: R.State, mid: R.State, job: Job, sent: set<(int, int)>, s: int, k: nat, a: string)
    requires ReplProgress(st, mid, job, sent) && a in st.stores
    requires s in st.replicas && k < |st.replicas[s]| && (s, k) !in sent
    requires s in mid.replicas && k < |mid.replicas[s]| && mid.replicas[s][k] == st.replicas[s][k]
    ensures var after := R.Deliver(mid, s, k, CommandOf(job)(s), job.env.replicaRefuse(s), job.env.now);
      a in after.stores && after.stores[a] ==
        Merge(st.stores[a], job.index, Part(job.vs, job.route, Arrived(st, sent + {(s, k)}, a, job.env.replicaRefuse)))
  {
    var refuse, r := job.env.replicaRefuse, st.replicas[s][k];
    DeliverAt(mid, s, k, CommandOf(job)(s), refuse(s), job.env.now, a);
    ArrivedNext(st, sent, a, refuse, s, k);
    StoredPart(st.stores[a], mid.stores[a], job, Arrived(st, sent, a, refuse), s, Takes(r, a, refuse(s)));
  }

  /** One store, before and after a command that it takes or does not get. */
  lemma StoredPart(db: Db, store: Db, job: Job, arrived: set<int>, s: int, takes: bool)
    requires store == Merge(db, job.index, Part(job.vs, job.route, arrived))
    ensures (if takes then Apply(store, CommandOf(job)(s).Effect()) else store) ==
      Merge(db, job.index, Part(job.vs, job.route, arrived + if takes then {s} else {}))
  {
    if takes {
      StorePart(db, job.index, job.vs, job.route, arrived, s);
    } else {
      assert arrived + {} == arrived;
    }
  }

  lemma ArrivedNext(st: R.State, sent: set<(int, int)>, a: string, refuse: int -> set<string>, s: int, k: nat)
    requires s in st.replicas && k < |st.replicas[s]| && (s, k) !in sent
    ensures Arrived(st, sent + {(s, k)}, a, refuse) ==
      Arrived(st, sent, a, refuse) + if Takes(st.replicas[s][k], a, refuse(s)) then {s} else {}
  {
  }

  // ----- Sequential handling, in any order -----

  function ReplicaPairs(repl: R.State, shards: set<int>): set<(int, int)> {
    set s, k | s in shards && s in repl.replicas && 0 <= k < |repl.replicas[s]| :: (s, k)
  }

  lemma {:induction false} BatchFanOutKeepsLog(
      mid: R.State, s: int, n: nat, cmd: R.Command, refuse: set<string>, now: int)
    requires cmd.BatchInsert?
    ensures R.FanOut(mid, s, n, cmd, refuse, now).log == mid.log
  {
    if n > 0 {
      BatchFanOutKeepsLog(mid, s, n - 1, cmd, refuse, now);
      BatchKeepsLog(R.FanOut(mid, s, n - 1, cmd, refuse, now), s, n - 1, cmd, refuse, now);
    }
  }

  /** A whole fan-out reaches a store once or not at all. */
  lemma ArrivedAll(repl: R.State, shards: set<int>, s: int, a: string, refuse: int -> set<string>)
    requires s in repl.replicas
    ensures Arrived(repl, ReplicaPairs(repl, shards + {s}), a, refuse) ==
      Arrived(repl, ReplicaPairs(repl, shards), a, refuse) +
        if Receives(repl.replicas[s], |repl.replicas[s]|, a, refuse(s)) then {s} else {}
  {
  }

  /** All replicas of one more shard are served. */
  lemma FanOutProgress(repl: R.State, mid: R.State, job: Job, shards: set<int>, s: int)
    requires ReplProgress(repl, mid, job, ReplicaPairs(repl, shards)) && AddressesUnique(repl)
    requires s in repl.replicas && s !in shards
    ensures ReplProgress(repl, R.Replicate(mid, s, CommandOf(job)(s), job.env.replicaRefuse(s), job.env.now), job,
      ReplicaPairs(repl, shards + {s}))
  {
    var list, cmd, refuse := repl.replicas[s], CommandOf(job)(s), job.env.replicaRefuse(s);
    var after := R.Replicate(mid, s, cmd, refuse, job.env.now);
    assert EntriesProgress(list, mid.replicas[s], s, repl.stores.Keys, job, ReplicaPairs(repl, shards));
    assert mid.replicas[s] == list;
    FanOutDelivers(mid, s, |list|, cmd, refuse, job.env.now);
    BatchFanOutKeepsLog(mid, s, |list|, cmd, refuse, job.env.now);
    forall t | t in repl.replicas
      ensures EntriesProgress(repl.replicas[t], after.replicas[t], t, repl.stores.Keys, job,
        ReplicaPairs(repl, shards + {s}))
    {
      assert EntriesProgress(repl.replicas[t], mid.replicas[t], t, repl.stores.Keys, job, ReplicaPairs(repl, shards));
    }
    forall a | a in repl.stores
      ensures after.stores[a] == Merge(repl.stores[a], job.index,
        Part(job.vs, job.route, Arrived(repl, ReplicaPairs(repl, shards + {s}), a, job.env.replicaRefuse)))
    {
      var arrived := Arrived(repl, ReplicaPairs(repl, shards), a, job.env.replicaRefuse);
      ArrivedAll(repl, shards, s, a, job.env.replicaRefuse);
      StoredPart(repl.stores[a], mid.stores[a], job, arrived, s, Receives(list, |list|, a, refuse));
    }
  }

  lemma CommitProgress(st: State, mid: State, job: Job, shards: set<int>, s: int)
    requires Progress(st, mid, job, shards, ReplicaPairs(st.repl, shards)) && AddressesUnique(st.repl)
    requires s !in shards
    ensures Progress(st, Commit(mid, s, CommandOf(job)(s), job.env), job, shards + {s},
      ReplicaPairs(st.repl, shards + {s}))
  {
    StoreProgress(st, mid, job, shards, ReplicaPairs(st.repl, shards), s);
    if s in st.repl.replicas {
      FanOutProgress(st.repl, mid.repl, job, shards, s);
    } else {
      assert ReplicaPairs(st.repl, shards) == ReplicaPairs(st.repl, shards + {s});
    }
  }

  lemma CommitNextProgress(st: State, before: State, job: Job, init: seq<int>, s: int)
    requires Progress(st, before, job, AcceptedIn(st, init, job.env),
      ReplicaPairs(st.repl, AcceptedIn(st, init, job.env)))
    requires AddressesUnique(st.repl) && s !in init
    ensures var shards := AcceptedIn(st, init + [s], job.env);
      Progress(st, if Accepts(before, s, job.env) then Commit(before, s, CommandOf(job)(s), job.env) else before, job,
        shards, ReplicaPairs(st.repl, shards))
  {
    assert Accepts(before, s, job.env) <==> Accepts(st, s, job.env);
    if Accepts(st, s, job.env) {
      CommitProgress(st, before, job, AcceptedIn(st, init, job.env), s);
      assert AcceptedIn(st, init + [s], job.env) == AcceptedIn(st, init, job.env) + {s};
    } else {
      assert AcceptedIn(st, init + [s], job.env) == AcceptedIn(st, init, job.env);
    }
  }

  lemma {:induction false} CommitAllProgress(st: State, job: Job, order: seq<int>)
    requires NoDuplicates(order) && AddressesUnique(st.repl)
    ensures var shards := AcceptedIn(st, order, job.env);
      Progress(st, CommitAll(st, order, CommandOf(job), job.env), job, shards, ReplicaPairs(st.repl, shards))
  {
    if order == [] {
      NoProgressYet(st, job);
      assert ReplicaPairs(st.repl, {}) == {};
    } else {
      var init, s := order[..|order| - 1], order[|order| - 1];
      assert order == init + [s] && s !in init;
      CommitAllProgress(st, job, init);
      CommitNextProgress(st, CommitAll(st, init, CommandOf(job), job.env), job, init, s);
    }
  }

  /** The order in which the shards are handled does not matter, down to every replica. */
  lemma ShardOrderIsIrrelevant(st: State, job: Job, order: seq<int>, other: seq<int>)
    requires NoDuplicates(order) && NoDuplicates(other) && ElementsOf(order) == ElementsOf(other)
    requires AddressesUnique(st.repl)
    ensures CommitAll(st, order, CommandOf(job), job.env) == CommitAll(st, other, CommandOf(job), job.env)
  {
    CommitAllProgress(st, job, order);
    CommitAllProgress(st, job, other);
    assert AcceptedIn(st, order, job.env) == AcceptedIn(st, other, job.env) by {
      assert forall s :: s in order <==> s in ElementsOf(order);
      assert forall s :: s in other <==> s in ElementsOf(other);
    }
    ProgressDetermines(st, CommitAll(st, order, CommandOf(job), job.env),
      CommitAll(st, other, CommandOf(job), job.env), job, AcceptedIn(st, order, job.env),
      ReplicaPairs(st.repl, AcceptedIn(st, order, job.env)));
  }

  // ----- What is counted and what fails -----

  /** The ids, with repetitions, of the vectors routed to the given shards. */
  function IdsIn(vs: seq<StoredVector>, route: Route, shards: set<int>): multiset<string> {
    if vs == [] then multiset{}
    else
      var last := vs[|vs| - 1];
      IdsIn(vs[..|vs| - 1], route, shards) +
        if route(last.id).Some? && route(last.id).value in shards then multiset{last.id} else multiset{}
  }

  lemma {:induction false} IdsInAdd(vs: seq<StoredVector>, route: Route, shards: set<int>, s: int)
    requires s !in shards
    ensures IdsIn(vs, route, shards + {s}) == IdsIn(vs, route, shards) + multiset(Ids(Group(vs, route, s)))
  {
    if vs == [] {
      assert Ids([]) == [];
    } else {
      var init, last := vs[..|vs| - 1], vs[|vs| - 1];
      IdsInAdd(init, route, shards, s);
      assert vs == init + [last];
      IdsInExtends(init, last, route, shards);
      IdsInExtends(init, last, route, shards + {s});
      GroupIdsExtend(init, last, route, s);
    }
  }

  lemma GroupIdsExtend(vs: seq<StoredVector>, v: StoredVector, route: Route, s: int)
    ensures multiset(Ids(Group(vs + [v], route, s))) == multiset(Ids(Group(vs, route, s))) +
      if route(v.id) == Some(s) then multiset{v.id} else multiset{}
  {
    var g := Group(vs, route, s);
    assert (vs + [v])[..|vs + [v]| - 1] == vs;
    assert Ids(g + [v]) == Ids(g) + [v.id];
    assert g + [] == g;
  }

  lemma IdsInExtends(vs: seq<StoredVector>, v: StoredVector, route: Route, shards: set<int>)
    ensures IdsIn(vs + [v], route, shards) == IdsIn(vs, route, shards) +
      if route(v.id).Some? && route(v.id).value in shards then multiset{v.id} else multiset{}
  {
    assert (vs + [v])[..|vs + [v]| - 1] == vs;
  }

  lemma {:induction false} IdsInNone(vs: seq<StoredVector>, route: Route)
    ensures IdsIn(vs, route, {}) == multiset{}
  {
    if vs != [] {
      IdsInNone(vs[..|vs| - 1], route);
    }
  }

  /** The report when these shards have been counted and those have failed. */
  ghost predicate Tallied(tally: Tally, job: Job, early: seq<string>, counted: set<int>, failed: set<int>) {
    && tally.inserted == |IdsIn(job.vs, job.route, counted)|
    && multiset(tally.failed) == multiset(early) + IdsIn(job.vs, job.route, failed)
  }

  lemma NothingTallied(job: Job, early: seq<string>)
    ensures Tallied(Tally(0, early), job, early, {}, {})
  {
    IdsInNone(job.vs, job.route);
  }

  lemma TallyAccepted(tally: Tally, job: Job, early: seq<string>, counted: set<int>, failed: set<int>, s: int)
    requires Tallied(tally, job, early, counted, failed) && s !in counted
    ensures Tallied(TallyOne(tally, Group(job.vs, job.route, s), true), job, early, counted + {s}, failed)
  {
    IdsInAdd(job.vs, job.route, counted, s);
  }

  lemma TallyRefused(tally: Tally, job: Job, early: seq<string>, counted: set<int>, failed: set<int>, s: int)
    requires Tallied(tally, job, early, counted, failed) && s !in failed
    ensures Tallied(TallyOne(tally, Group(job.vs, job.route, s), false), job, early, counted, failed + {s})
  {
    IdsInAdd(job.vs, job.route, failed, s);
    var ids := Ids(Group(job.vs, job.route, s));
    assert multiset(tally.failed + ids) == multiset(tally.failed) + multiset(ids);
  }

  lemma {:induction false} TallyAllCounts(st: State, job: Job, order: seq<int>, early: seq<string>)
    requires NoDuplicates(order)
    ensures var accepted := AcceptedIn(st, order, job.env);
      Tallied(TallyAll(st, order, job.vs, job.route, job.env, early), job, early, accepted,
        ElementsOf(order) - accepted)
  {
    if order == [] {
      NothingTallied(job, early);
      assert AcceptedIn(st, order, job.env) == {} && ElementsOf(order) - AcceptedIn(st, order, job.env) == {};
    } else {
      var init, s := order[..|order| - 1], order[|order| - 1];
      TallyAllCounts(st, job, init, early);
      var tally := TallyAll(st, init, job.vs, job.route, job.env, early);
      var accepted := AcceptedIn(st, init, job.env);
      var refused := ElementsOf(init) - accepted;
      LastAccepted(st, order, job.env);
      if Accepts(st, s, job.env) {
        TallyAccepted(tally, job, early, accepted, refused, s);
      } else {
        TallyRefused(tally, job, early, accepted, refused, s);
      }
    }
  }

  lemma LastAccepted(st: State, order: seq<int>, env: Env)
    requires order != [] && NoDuplicates(order)
    ensures var init, s := order[..|order| - 1], order[|order| - 1];
      var accepted := AcceptedIn(st, init, env);
      var refused := ElementsOf(init) - accepted;
      && s !in accepted && s !in refused
      && AcceptedIn(st, order, env) == (if Accepts(st, s, env) then accepted + {s} else accepted)
      && ElementsOf(order) - AcceptedIn(st, order, env) ==
           (if Accepts(st, s, env) then refused else refused + {s})
  {
  }

  // ----- The parallel goroutines -----

  /**
   * A parallel batch in progress. Each goroutine's position is read off the sets: it stores its group or
   * is refused; then it reports under the lock (a refused one is done with that); an accepted one then
   * delivers to its replicas one by one in any order and is done when all are served.
   */
  datatype Parallel = Parallel(
    st: State, tally: Tally, stored: set<int>, refused: set<int>, counted: set<int>, sent: set<(int, int)>,
    done: set<int>)

  function Started(st: State, early: seq<string>): Parallel {
    Parallel(st, Tally(0, early), {}, {}, {}, {}, {})
  }

  function ReplicaCount(repl: R.State, s: int): nat {
    if s in repl.replicas then |repl.replicas[s]| else 0
  }

  /** The scheduler lets goroutine s take its next step; k picks the replica when it is delivering. */
  function Tick(p: Parallel, job: Job, targets: set<int>, s: int, k: int): Parallel {
    if s !in targets || s in p.done then p
    else if s !in p.stored && s !in p.refused then
      if Accepts(p.st, s, job.env) then
        p.(st := WriteAt(p.st, s, CommandOf(job)(s).Effect()), stored := p.stored + {s})
      else p.(refused := p.refused + {s})
    else if s in p.refused then
      p.(tally := TallyOne(p.tally, Group(job.vs, job.route, s), false), done := p.done + {s})
    else if s !in p.counted then
      p.(tally := TallyOne(p.tally, Group(job.vs, job.route, s), true), counted := p.counted + {s})
    else if 0 <= k < ReplicaCount(p.st.repl, s) && (s, k) !in p.sent then
      p.(st := p.st.(repl := R.Deliver(p.st.repl, s, k, CommandOf(job)(s), job.env.replicaRefuse(s), job.env.now)),
         sent := p.sent + {(s, k)})
    else if forall i :: 0 <= i < ReplicaCount(p.st.repl, s) ==> (s, i) in p.sent then p.(done := p.done + {s})
    else p
  }

  function RunParallel(st: State, job: Job, targets: set<int>, early: seq<string>, schedule: seq<(int, int)>)
    : Parallel
  {
    if schedule == [] then Started(st, early)
    else
      var last := schedule[|schedule| - 1];
      Tick(RunParallel(st, job, targets, early, schedule[..|schedule| - 1]), job, targets, last.0, last.1)
  }

  ghost predicate ParallelInvariant(st: State, p: Parallel, job: Job, targets: set<int>, early: seq<string>) {
    && Progress(st, p.st, job, p.stored, p.sent)
    && Positions(st, p, job, targets)
    && Tallied(p.tally, job, early, p.counted, p.done * p.refused)
  }

  ghost predicate Positions(st: State, p: Parallel, job: Job, targets: set<int>) {
    && p.stored <= targets && p.refused <= targets && p.counted <= p.stored && p.done <= p.refused + p.counted
    && (forall s :: s in p.stored ==> Accepts(st, s, job.env))
    && (forall s :: s in p.refused ==> !Accepts(st, s, job.env))
    && Deliveries(st.repl, p)
  }

  /** Only counted goroutines deliver, and those that are done have served every replica. */
  ghost predicate Deliveries(repl: R.State, p: Parallel) {
    && (forall s, k :: (s, k) in p.sent ==> s in p.counted && 0 <= k < ReplicaCount(repl, s))
    && (forall s, k :: s in p.done && s in p.counted && 0 <= k < ReplicaCount(repl, s) ==> (s, k) in p.sent)
  }

  lemma SameReplicaCount(st: State, p: Parallel, job: Job, s: int)
    requires Progress(st, p.st, job, p.stored, p.sent)
    ensures ReplicaCount(p.st.repl, s) == ReplicaCount(st.repl, s)
    ensures Accepts(p.st, s, job.env) <==> Accepts(st, s, job.env)
  {
  }

  lemma TickKeepsDeliveries(st: State, p: Parallel, job: Job, targets: set<int>, s: int, k: int)
    requires Progress(st, p.st, job, p.stored, p.sent) && Positions(st, p, job, targets)
    ensures Deliveries(st.repl, Tick(p, job, targets, s, k))
  {
    SameReplicaCount(st, p, job, s);
  }

  lemma TickKeepsPositions(st: State, p: Parallel, job: Job, targets: set<int>, s: int, k: int)
    requires Progress(st, p.st, job, p.stored, p.sent) && Positions(st, p, job, targets)
    ensures Positions(st, Tick(p, job, targets, s, k), job, targets)
  {
    SameReplicaCount(st, p, job, s);
    TickKeepsDeliveries(st, p, job, targets, s, k);
  }

  lemma TickKeepsProgress(st: State, p: Parallel, job: Job, targets: set<int>, s: int, k: int)
    requires Progress(st, p.st, job, p.stored, p.sent) && AddressesUnique(st.repl)
    ensures var q := Tick(p, job, targets, s, k); Progress(st, q.st, job, q.stored, q.sent)
  {
    SameReplicaCount(st, p, job, s);
    if s in targets && s !in p.done {
      if s !in p.stored && s !in p.refused {
        StoreProgress(st, p.st, job, p.stored, p.sent, s);
      } else if 0 <= k < ReplicaCount(p.st.repl, s) && (s, k) !in p.sent {
        SendProgress(st.repl, p.st.repl, job, p.sent, s, k, p.sent + {(s, k)});
      }
    }
  }

  lemma MoreDone(done: set<int>, refused: set<int>, s: int)
    ensures s in refused ==> (done + {s}) * refused == done * refused + {s}
    ensures s !in refused ==> (done + {s}) * refused == done * refused
  {
  }

  lemma MoreRefused(done: set<int>, refused: set<int>, s: int)
    requires s !in done
    ensures done * (refused + {s}) == done * refused
  {
  }

  lemma TickKeepsTally(st: State, p: Parallel, job: Job, targets: set<int>, early: seq<string>, s: int, k: int)
    requires Positions(st, p, job, targets) && Tallied(p.tally, job, early, p.counted, p.done * p.refused)
    ensures var q := Tick(p, job, targets, s, k); Tallied(q.tally, job, early, q.counted, q.done * q.refused)
  {
    var q := Tick(p, job, targets, s, k);
    if s in targets && s !in p.done {
      if s in p.refused {
        TallyRefused(p.tally, job, early, p.counted, p.done * p.refused, s);
        MoreDone(p.done, p.refused, s);
      } else if s in p.stored && s !in p.counted {
        TallyAccepted(p.tally, job, early, p.counted, p.done * p.refused, s);
      } else {
        assert q.tally == p.tally && q.counted == p.counted;
        MoreDone(p.done, p.refused, s);
        MoreRefused(p.done, p.refused, s);
      }
    }
  }

  lemma {:induction false} ParallelKeepsInvariant(
      st: State, job: Job, targets: set<int>, early: seq<string>, schedule: seq<(int, int)>)
    requires AddressesUnique(st.repl)
    ensures ParallelInvariant(st, RunParallel(st, job, targets, early, schedule), job, targets, early)
  {
    if schedule == [] {
      NoProgressYet(st, job);
      NothingTallied(job, early);
      assert Started(st, early).done * Started(st, early).refused == {};
    } else {
      var init, last := schedule[..|schedule| - 1], schedule[|schedule| - 1];
      ParallelKeepsInvariant(st, job, targets, early, init);
      var p := RunParallel(st, job, targets, early, init);
      TickKeepsPositions(st, p, job, targets, last.0, last.1);
      TickKeepsProgress(st, p, job, targets, last.0, last.1);
      TickKeepsTally(st, p, job, targets, early, last.0, last.1);
    }
  }

  /**
   * Any interleaving of the goroutines that runs to completion ends in the state of the sequential
   * loop, for any order of that loop, with the same count and the same multiset of failed ids.
   */
  lemma ParallelEqualsSequential(st: State, job: Job, early: seq<string>, schedule: seq<(int, int)>, order: seq<int>)
    requires NoDuplicates(order) && AddressesUnique(st.repl)
    requires RunParallel(st, job, ElementsOf(order), early, schedule).done == ElementsOf(order)
    ensures var p := RunParallel(st, job, ElementsOf(order), early, schedule);
      var tally := TallyAll(st, order, job.vs, job.route, job.env, early);
      && p.st == CommitAll(st, order, CommandOf(job), job.env)
      && p.tally.inserted == tally.inserted && multiset(p.tally.failed) == multiset(tally.failed)
  {
    var targets := ElementsOf(order);
    var p := RunParallel(st, job, targets, early, schedule);
    ParallelKeepsInvariant(st, job, targets, early, schedule);
    var accepted := AcceptedIn(st, order, job.env);
    FinishedSets(st, p, job, order, early);
    CommitAllProgress(st, job, order);
    ProgressDetermines(st, p.st, CommitAll(st, order, CommandOf(job), job.env), job, accepted,
      ReplicaPairs(st.repl, accepted));
    TallyAllCounts(st, job, order, early);
  }

  lemma FinishedSets(st: State, p: Parallel, job: Job, order: seq<int>, early: seq<string>)
    requires ParallelInvariant(st, p, job, ElementsOf(order), early) && p.done == ElementsOf(order)
    ensures var accepted := AcceptedIn(st, order, job.env);
      && p.stored == accepted && p.counted == accepted && p.done * p.refused == ElementsOf(order) - accepted
      && p.sent == ReplicaPairs(st.repl, accepted)
  {
    var accepted := AcceptedIn(st, order, job.env);
    forall s ensures s in p.counted <==> s in accepted {
      assert s in order <==> s in ElementsOf(order);
    }
    assert p.counted == accepted;
    var pairs := ReplicaPairs(st.repl, accepted);
    forall pair | pair in p.sent ensures pair in pairs {
      var (s, k) := pair;
      assert s in p.counted && 0 <= k < ReplicaCount(st.repl, s);
    }
    forall pair | pair in pairs ensures pair in p.sent {
      var (s, k) := pair;
      assert s in p.done && s in p.counted && 0 <= k < ReplicaCount(st.repl, s);
    }
  }

  // ----- A parallel batch never gets stuck -----

  /** The steps taken so far. */
  function Work(p: Parallel): nat {
    |p.stored| + |p.refused| + |p.counted| + |p.sent| + |p.done|
  }

  function MostWork(st: State, targets: set<int>): nat {
    4 * |targets| + |ReplicaPairs(st.repl, targets)|
  }

  lemma SubsetSize<T>(a: set<T>, b: set<T>)
    requires a <= b
    ensures |a| <= |b|
  {
    assert b == a + (b - a);
  }

  lemma WorkBounded(st: State, p: Parallel, job: Job, targets: set<int>)
    requires Positions(st, p, job, targets)
    ensures Work(p) <= MostWork(st, targets)
  {
    SubsetSize(p.stored, targets);
    SubsetSize(p.refused, targets);
    SubsetSize(p.counted, targets);
    SubsetSize(p.done, targets);
    forall pair | pair in p.sent ensures pair in ReplicaPairs(st.repl, targets) {
      var (s, k) := pair;
      assert s in p.counted && 0 <= k < ReplicaCount(st.repl, s);
    }
    SubsetSize(p.sent, ReplicaPairs(st.repl, targets));
  }

  lemma Grows<T>(s: set<T>, x: T)
    requires x !in s
    ensures |s + {x}| == |s| + 1
  {
  }

  /** A step of a goroutine that is not done counts, unless it picks a served replica too early. */
  lemma TickWorks(p: Parallel, job: Job, targets: set<int>, s: int, k: int)
    requires s in targets && s !in p.done
    requires (0 <= k < ReplicaCount(p.st.repl, s) && (s, k) !in p.sent) ||
      forall i :: 0 <= i < ReplicaCount(p.st.repl, s) ==> (s, i) in p.sent
    ensures Work(Tick(p, job, targets, s, k)) == Work(p) + 1
  {
    if s !in p.stored && s !in p.refused {
      Grows(p.stored, s);
      Grows(p.refused, s);
    } else if s in p.refused {
      Grows(p.done, s);
    } else if s !in p.counted {
      Grows(p.counted, s);
    } else if 0 <= k < ReplicaCount(p.st.repl, s) && (s, k) !in p.sent {
      Grows(p.sent, (s, k));
    } else {
      Grows(p.done, s);
    }
  }

  /** As long as some goroutine is not done, one of them can take a step. */
  lemma NeverStuck(st: State, p: Parallel, job: Job, targets: set<int>) returns (s: int, k: int)
    requires Positions(st, p, job, targets) && p.done != targets
    ensures Work(Tick(p, job, targets, s, k)) == Work(p) + 1
  {
    assert targets == p.done + (targets - p.done);
    s := MemberOf(targets - p.done);
    k := 0;
    if k' :| 0 <= k' < ReplicaCount(p.st.repl, s) && (s, k') !in p.sent {
      k := k';
    }
    TickWorks(p, job, targets, s, k);
  }

  lemma OneTickMore(
      st: State, job: Job, targets: set<int>, early: seq<string>, schedule: seq<(int, int)>, s: int, k: int)
    ensures RunParallel(st, job, targets, early, schedule + [(s, k)]) ==
      Tick(RunParallel(st, job, targets, early, schedule), job, targets, s, k)
  {
    var longer := schedule + [(s, k)];
    assert longer[..|longer| - 1] == schedule;
  }

  /** How far a schedule is from the most work there can be. */
  ghost function WorkLeft(st: State, job: Job, targets: set<int>, early: seq<string>, schedule: seq<(int, int)>): int {
    MostWork(st, targets) - Work(RunParallel(st, job, targets, early, schedule))
  }

  lemma WorkLeftBounded(st: State, job: Job, targets: set<int>, early: seq<string>, schedule: seq<(int, int)>)
    requires AddressesUnique(st.repl)
    ensures WorkLeft(st, job, targets, early, schedule) >= 0
  {
    ParallelKeepsInvariant(st, job, targets, early, schedule);
    WorkBounded(st, RunParallel(st, job, targets, early, schedule), job, targets);
  }

  lemma NextTick(st: State, job: Job, targets: set<int>, early: seq<string>, schedule: seq<(int, int)>)
      returns (longer: seq<(int, int)>)
    requires AddressesUnique(st.repl) && RunParallel(st, job, targets, early, schedule).done != targets
    ensures schedule <= longer
    ensures WorkLeft(st, job, targets, early, longer) < WorkLeft(st, job, targets, early, schedule)
  {
    ParallelKeepsInvariant(st, job, targets, early, schedule);
    var s, k := NeverStuck(st, RunParallel(st, job, targets, early, schedule), job, targets);
    OneTickMore(st, job, targets, early, schedule, s, k);
    longer := schedule + [(s, k)];
  }

  /** From every reachable point some continuation brings all goroutines to their end. */
  lemma {:induction false} ParallelCanFinish(
      st: State, job: Job, targets: set<int>, early: seq<string>, schedule: seq<(int, int)>)
      returns (finished: seq<(int, int)>)
    requires AddressesUnique(st.repl)
    ensures schedule <= finished
    ensures RunParallel(st, job, targets, early, finished).done == targets
    decreases WorkLeft(st, job, targets, early, schedule)
  {
    if RunParallel(st, job, targets, early, schedule).done == targets {
      finished := schedule;
    } else {
      var longer := NextTick(st, job, targets, early, schedule);
      WorkLeftBounded(st, job, targets, early, schedule);
      WorkLeftBounded(st, job, targets, early, longer);
      finished := ParallelCanFinish(st, job, targets, early, longer);
    }
  }

  // ----- Conservation -----

  predicate Goes(st: State, item: Item, dimension: int, route: Route, env: Env) {
    |item.values| == dimension && route(item.id).Some? && Accepts(st, route(item.id).value, env)
  }

  /** The ids, with repetitions, of the items that satisfy a condition. */
  function Chosen(items: seq<Item>, p: Item -> bool): multiset<string> {
    if items == [] then multiset{}
    else
      var last := items[|items| - 1];
      Chosen(items[..|items| - 1], p) + if p(last) then multiset{last.id} else multiset{}
  }

  lemma {:induction false} ChosenSplits(items: seq<Item>, p: Item -> bool, q: Item -> bool, r: Item -> bool)
    requires forall i :: 0 <= i < |items| ==>
      !(q(items[i]) && r(items[i])) && (p(items[i]) <==> q(items[i]) || r(items[i]))
    ensures Chosen(items, p) == Chosen(items, q) + Chosen(items, r)
  {
    if items != [] {
      ChosenSplits(items[..|items| - 1], p, q, r);
    }
  }

  lemma {:induction false} ChosenAll(items: seq<Item>, p: Item -> bool)
    requires forall i :: 0 <= i < |items| ==> p(items[i])
    ensures |Chosen(items, p)| == |items|
  {
    if items != [] {
      ChosenAll(items[..|items| - 1], p);
    }
  }

  function FailsEarly(dimension: int, route: Route): Item -> bool {
    (item: Item) => |item.values| != dimension || route(item.id).None?
  }

  function GoesTo(dimension: int, route: Route, shards: set<int>): Item -> bool {
    (item: Item) => |item.values| == dimension && route(item.id).Some? && route(item.id).value in shards
  }

  function IsRejected(st: State, dimension: int, route: Route, env: Env): Item -> bool {
    (item: Item) => !Goes(st, item, dimension, route, env)
  }

  lemma {:induction false} EarlyIsChosen(items: seq<Item>, dimension: int, route: Route)
    ensures multiset(EarlyFailures(items, dimension, route)) == Chosen(items, FailsEarly(dimension, route))
  {
    if items != [] {
      EarlyIsChosen(items[..|items| - 1], dimension, route);
    }
  }

  lemma {:induction false} FittingIsChosen(items: seq<Item>, dimension: int, route: Route, shards: set<int>)
    ensures IdsIn(Fitting(items, dimension), route, shards) == Chosen(items, GoesTo(dimension, route, shards))
  {
    if items != [] {
      var init, last := items[..|items| - 1], items[|items| - 1];
      FittingIsChosen(init, dimension, route, shards);
      if |last.values| == dimension {
        IdsInExtends(Fitting(init, dimension), Stamped(last), route, shards);
      } else {
        assert Fitting(init, dimension) + [] == Fitting(init, dimension);
      }
    }
  }

  /** Every item that gets that far is in a group. */
  lemma InSomeGroup(route: Route, items: seq<Item>, dimension: int, order: seq<int>, i: nat)
    requires ElementsOf(order) == Targets(Ids(Fitting(items, dimension)), route) && i < |items|
    ensures route(items[i].id).Some? && |items[i].values| == dimension ==> route(items[i].id).value in order
  {
    if route(items[i].id).Some? && |items[i].values| == dimension {
      var vs := Fitting(items, dimension);
      FittingHas(items, dimension, i);
      var j :| 0 <= j < |vs| && vs[j] == Stamped(items[i]);
      assert Ids(vs)[j] == items[i].id;
      assert route(items[i].id).value in ElementsOf(order);
    }
  }

  /**
   * Whatever shards refuse: the inserted count and the failed ids account for every vector of the
   * request, and the failed ids are exactly those of the vectors that did not go through.
   */
  lemma BatchConserves(st: State, route: Route, items: seq<Item>, dimension: int, order: seq<int>, env: Env)
    requires NoDuplicates(order) && ElementsOf(order) == Targets(Ids(Fitting(items, dimension)), route)
    ensures var tally := TallyAll(st, order, Fitting(items, dimension), route, env,
        EarlyFailures(items, dimension, route));
      && tally.inserted + |tally.failed| == |items|
      && multiset(tally.failed) == Chosen(items, IsRejected(st, dimension, route, env))
  {
    var vs := Fitting(items, dimension);
    var early := EarlyFailures(items, dimension, route);
    TallyAllCounts(st, Job("", vs, route, env), order, early);
    var accepted := AcceptedIn(st, order, env);
    var refused := ElementsOf(order) - accepted;
    EarlyIsChosen(items, dimension, route);
    FittingIsChosen(items, dimension, route, accepted);
    FittingIsChosen(items, dimension, route, refused);
    RejectedSplit(st, route, items, dimension, order, env);
    var tally := TallyAll(st, order, vs, route, env, early);
    assert |multiset(tally.failed)| == |tally.failed|;
  }

  /** Rejected items failed early or in a refused group, and the others are in an accepted group. */
  lemma RejectedSplit(st: State, route: Route, items: seq<Item>, dimension: int, order: seq<int>, env: Env)
    requires ElementsOf(order) == Targets(Ids(Fitting(items, dimension)), route)
    ensures var accepted := AcceptedIn(st, order, env);
      var rejected := Chosen(items, IsRejected(st, dimension, route, env));
      && rejected == Chosen(items, FailsEarly(dimension, route)) +
           Chosen(items, GoesTo(dimension, route, ElementsOf(order) - accepted))
      && |Chosen(items, GoesTo(dimension, route, accepted))| + |rejected| == |items|
  {
    var accepted := AcceptedIn(st, order, env);
    forall i | 0 <= i < |items|
      ensures route(items[i].id).Some? && |items[i].values| == dimension ==> route(items[i].id).value in order
    {
      InSomeGroup(route, items, dimension, order, i);
    }
    var rejected := IsRejected(st, dimension, route, env);
    ChosenSplits(items, rejected, FailsEarly(dimension, route),
      GoesTo(dimension, route, ElementsOf(order) - accepted));
    ChosenSplits(items, _ => true, GoesTo(dimension, route, accepted), rejected);
    ChosenAll(items, _ => true);
  }

  lemma {:induction false} FittingHas(items: seq<Item>, dimension: int, i: nat)
    requires i < |items| && |items[i].values| == dimension
    ensures Stamped(items[i]) in Fitting(items, dimension)
  {
    if i < |items| - 1 {
      FittingHas(items[..|items| - 1], dimension, i);
    }
  }
}
