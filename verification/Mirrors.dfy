/**
 * Replica exactness: when an active secondary shows exactly what its shard shows, and which requests make
 * it show something its shard no longer has.
 */
module Mirrors {
  import opened Common
  import opened Vectors
  import opened Store
  import opened Service
  import opened Refinement
  import opened Coverage
  import opened Invariants
  import R = Replication

  // ----- Exactness of one shard's replicas -----

  /** For the ids routed to shard s, store and database show the same. */
  ghost predicate Mirrors(db: Db, store: Db, route: Route, s: int, names: set<string>) {
    forall i, e :: i in names && route(e) == Some(s) ==> Visible(store, i, e) == Visible(db, i, e)
  }

  /** The active secondary at position k of the shard's list. */
  predicate Follows(repl: R.State, s: int, k: int) {
    && s in repl.replicas && 0 <= k < |repl.replicas[s]|
    && IsFollower(repl.replicas[s][k])
  }

  ghost predicate FollowerMirrors(st: State, route: Route, names: set<string>, s: int, k: int)
    requires s in st.dbs && Follows(st.repl, s, k)
  {
    var a := st.repl.replicas[s][k].address;
    a in st.repl.stores && Mirrors(st.dbs[s], st.repl.stores[a], route, s, names)
  }

  ghost predicate MirroredAt(st: State, route: Route, names: set<string>, s: int) {
    s in st.dbs ==> forall k :: Follows(st.repl, s, k) ==> FollowerMirrors(st, route, names, s, k)
  }

  /** Every active secondary shows exactly what its shard shows. */
  ghost predicate Mirrored(st: State, route: Route, names: set<string>) {
    forall s :: MirroredAt(st, route, names, s)
  }

  // ----- What a write hides -----

  /** The write changes an id that the database shows. */
  ghost predicate Hides(db: Db, w: Write) {
    exists e :: Touches(w, e) && Visible(db, w.index, e).Some?
  }

  /** Some active secondary of the shard refuses the forwarded call. */
  ghost predicate SomeRefuses(repl: R.State, s: int, refuse: set<string>) {
    exists k :: Follows(repl, s, k) && repl.replicas[s][k].address in refuse
  }

  ghost predicate SomeFollows(repl: R.State, s: int) {
    exists k :: Follows(repl, s, k)
  }

  /** A forwarded delete must not hide anything while a replica refuses it; refused stores fail the replica. */
  ghost predicate Harmless(st: State, s: int, cmd: R.Command, env: Env) {
    s in st.dbs && !cmd.FailsReplica() && SomeRefuses(st.repl, s, env.replicaRefuse(s)) ==>
      !Hides(st.dbs[s], cmd.Effect())
  }

  /**
   * What the caller can check before a request: no hiding delete is refused by a replica of its shard, no
   * drop hides a vector of a shard with an active secondary, and no update of a shown vector stops half-way.
   */
  ghost predicate StaysMirrored(st: State, route: Route, req: Request, env: Env) {
    match req
    case Delete(index, id) =>
      var home := Home(st, route, id);
      home.Some? && home.value !in env.refuse ==> Harmless(st, home.value, R.Delete(index, id), env)
    case BatchDelete(index, ids, order) =>
      forall s :: s in order && Accepts(st, s, env) ==> Harmless(st, s, DeleteCommand(index, ids, route)(s), env)
    case DropIndex(index) =>
      index in st.indexes ==>
        forall s :: s in st.dbs && Accepts(st, s, env) && SomeFollows(st.repl, s) ==> !Hides(st.dbs[s], Drop(index))
    case Update(index, id, _, values) =>
      var home := Home(st, route, id);
      (Fits(st, index, values) && home.Some? && home.value !in env.refuseDelete && home.value in env.refuse &&
       SomeFollows(st.repl, home.value)) ==>
        Visible(st.dbs[home.value], index, id).None?
    case _ => true
  }

  // ----- Writes on a database and its replica's store -----

  lemma SameWrite(db: Db, store: Db, w: Write, route: Route, s: int, names: set<string>)
    requires SafeNames(names) && w.index in names && Mirrors(db, store, route, s, names)
    ensures Mirrors(Apply(db, w), Apply(store, w), route, s, names)
  {
    forall i, e | i in names && route(e) == Some(s)
      ensures Visible(Apply(store, w), i, e) == Visible(Apply(db, w), i, e)
    {
      assert !Clash(w.index, i);
      VisibleAfterWrite(db, w, i, e);
      VisibleAfterWrite(store, w, i, e);
    }
  }

  lemma ForeignWrite(db: Db, store: Db, w: Write, route: Route, s: int, t: int, names: set<string>)
    requires SafeNames(names) && w.index in names && TouchesOnly(w, route, s) && s != t
    ensures Mirrors(db, Apply(store, w), route, t, names) <==> Mirrors(db, store, route, t, names)
  {
    forall i, e | i in names && route(e) == Some(t) ensures Visible(Apply(store, w), i, e) == Visible(store, i, e) {
      assert !Clash(w.index, i) && !Touches(w, e);
      VisibleAfterWrite(store, w, i, e);
    }
  }

  /** A removing write that reaches the database alone keeps the mirror exactly when it hides nothing. */
  lemma LoneRemoval(db: Db, store: Db, w: Write, route: Route, s: int, names: set<string>)
    requires SafeNames(names) && w.index in names && !w.Put? && Mirrors(db, store, route, s, names)
    requires forall e :: Touches(w, e) && Visible(db, w.index, e).Some? ==> route(e) == Some(s)
    ensures Mirrors(Apply(db, w), store, route, s, names) <==> !Hides(db, w)
  {
    forall i, e | i in names
      ensures Visible(Apply(db, w), i, e) ==
        if i == w.index && Touches(w, e) then None else Visible(db, i, e)
    {
      assert !Clash(w.index, i);
      VisibleAfterWrite(db, w, i, e);
    }
    if e :| Touches(w, e) && Visible(db, w.index, e).Some? {
      assert Visible(store, w.index, e) == Visible(db, w.index, e);
      assert Visible(Apply(db, w), w.index, e).None?;
    }
  }

  // ----- One forwarded command -----

  /** The active secondaries after a forwarded command: those before, except the ones a refused store failed. */
  lemma CommitFollowers(st: State, s: int, cmd: R.Command, env: Env, k: int)
    requires AddressesUnique(st.repl) && MirrorsAddressed(st, s)
    ensures var repl := Commit(st, s, cmd, env).repl;
      Follows(repl, s, k) <==>
        Follows(st.repl, s, k) &&
        !(cmd.FailsReplica() && st.repl.replicas[s][k].address in env.replicaRefuse(s))
    ensures Follows(Commit(st, s, cmd, env).repl, s, k) ==>
      Commit(st, s, cmd, env).repl.replicas[s][k].address == st.repl.replicas[s][k].address
  {
    if s in st.repl.replicas {
      var list := st.repl.replicas[s];
      FanOutDelivers(st.repl, s, |list|, cmd, env.replicaRefuse(s), env.now);
      if 0 <= k < |list| {
        assert Commit(st, s, cmd, env).repl.replicas[s][k] ==
          DeliveredEntry(list[k], st.repl.stores.Keys, cmd, env.replicaRefuse(s), env.now);
      }
    }
  }

  /** The store of an active secondary takes the command unless it refuses. */
  lemma CommitStore(st: State, s: int, cmd: R.Command, env: Env, k: int)
    requires AddressesUnique(st.repl) && MirrorsAddressed(st, s) && Follows(st.repl, s, k)
    ensures var repl, a := Commit(st, s, cmd, env).repl, st.repl.replicas[s][k].address;
      a in repl.stores && repl.stores[a] ==
        if a in env.replicaRefuse(s) then st.repl.stores[a] else Apply(st.repl.stores[a], cmd.Effect())
  {
    var list := st.repl.replicas[s];
    FanOutDelivers(st.repl, s, |list|, cmd, env.replicaRefuse(s), env.now);
    if list[k].address !in env.replicaRefuse(s) {
      assert Receives(list, |list|, list[k].address, env.replicaRefuse(s));
    }
  }

  ghost predicate MirrorsAddressed(st: State, s: int) {
    forall k :: Follows(st.repl, s, k) ==> st.repl.replicas[s][k].address in st.repl.stores
  }

  lemma FollowerHere(st: State, s: int, cmd: R.Command, env: Env, route: Route, names: set<string>, k: int)
    requires SafeNames(names) && cmd.Effect().index in names && AddressesUnique(st.repl)
    requires MirroredAt(st, route, names, s) && TouchesOnly(cmd.Effect(), route, s) && s in st.dbs
    requires Follows(Commit(st, s, cmd, env).repl, s, k)
    ensures Follows(st.repl, s, k)
    ensures FollowerMirrors(Commit(st, s, cmd, env), route, names, s, k) <==>
      (st.repl.replicas[s][k].address !in env.replicaRefuse(s) || !Hides(st.dbs[s], cmd.Effect()))
  {
    var w := cmd.Effect();
    CommitFollowers(st, s, cmd, env, k);
    CommitStore(st, s, cmd, env, k);
    assert FollowerMirrors(st, route, names, s, k);
    var a := st.repl.replicas[s][k].address;
    if a in env.replicaRefuse(s) {
      LoneRemoval(st.dbs[s], st.repl.stores[a], w, route, s, names);
    } else {
      SameWrite(st.dbs[s], st.repl.stores[a], w, route, s, names);
    }
  }

  /** The shard of the command itself. */
  lemma CommitHere(st: State, s: int, cmd: R.Command, env: Env, route: Route, names: set<string>)
    requires SafeNames(names) && cmd.Effect().index in names && AddressesUnique(st.repl)
    requires MirroredAt(st, route, names, s) && TouchesOnly(cmd.Effect(), route, s) && s in st.dbs
    ensures MirroredAt(Commit(st, s, cmd, env), route, names, s) <==> Harmless(st, s, cmd, env)
  {
    var after := Commit(st, s, cmd, env);
    forall k | Follows(after.repl, s, k)
      ensures Follows(st.repl, s, k)
      ensures FollowerMirrors(after, route, names, s, k) <==>
        (st.repl.replicas[s][k].address !in env.replicaRefuse(s) || !Hides(st.dbs[s], cmd.Effect()))
      ensures cmd.FailsReplica() ==> st.repl.replicas[s][k].address !in env.replicaRefuse(s)
    {
      FollowerHere(st, s, cmd, env, route, names, k);
      CommitFollowers(st, s, cmd, env, k);
    }
    if !Harmless(st, s, cmd, env) {
      var k :| Follows(st.repl, s, k) && st.repl.replicas[s][k].address in env.replicaRefuse(s);
      CommitFollowers(st, s, cmd, env, k);
      assert Follows(after.repl, s, k);
    }
  }

  /** Another shard, even one that shares replica stores with the command's shard. */
  lemma CommitElsewhere(st: State, s: int, cmd: R.Command, env: Env, route: Route, names: set<string>, t: int)
    requires SafeNames(names) && cmd.Effect().index in names && AddressesUnique(st.repl)
    requires TouchesOnly(cmd.Effect(), route, s) && s != t
    ensures var after := Commit(st, s, cmd, env);
      && (MirroredAt(after, route, names, t) <==> MirroredAt(st, route, names, t))
      && (t in after.dbs <==> t in st.dbs) && (t in st.dbs ==> after.dbs[t] == st.dbs[t])
      && (forall k :: Follows(after.repl, t, k) <==> Follows(st.repl, t, k))
      && (forall k :: Follows(st.repl, t, k) ==> after.repl.replicas[t][k] == st.repl.replicas[t][k])
      && AddressesUnique(after.repl)
  {
    var after, w := Commit(st, s, cmd, env), cmd.Effect();
    CommitKeepsAddresses(st, s, cmd, env);
    if s in st.repl.replicas {
      FanOutDelivers(st.repl, s, |st.repl.replicas[s]|, cmd, env.replicaRefuse(s), env.now);
    }
    if t in st.dbs {
      forall k | Follows(st.repl, t, k)
        ensures Follows(after.repl, t, k)
        ensures FollowerMirrors(after, route, names, t, k) <==> FollowerMirrors(st, route, names, t, k)
      {
        var a := st.repl.replicas[t][k].address;
        if a in st.repl.stores {
          ForeignWrite(st.dbs[t], st.repl.stores[a], w, route, s, t, names);
        }
      }
    }
  }

  // ----- A batch of commands -----

  lemma SameHarm(st: State, mid: State, s: int, cmd: R.Command, env: Env)
    requires SameAt(st, mid, s)
    ensures Harmless(mid, s, cmd, env) <==> Harmless(st, s, cmd, env)
  {
    assert SomeRefuses(mid.repl, s, env.replicaRefuse(s)) <==> SomeRefuses(st.repl, s, env.replicaRefuse(s));
  }

  /** Database and followers of shard t are the same in both states. */
  ghost predicate SameAt(st: State, mid: State, t: int) {
    && (t in mid.dbs <==> t in st.dbs) && (t in st.dbs ==> mid.dbs[t] == st.dbs[t])
    && (forall k :: Follows(mid.repl, t, k) <==> Follows(st.repl, t, k))
    && (forall k :: Follows(st.repl, t, k) ==> mid.repl.replicas[t][k] == st.repl.replicas[t][k])
  }

  /** After a batch, a shard's replicas mirror it exactly when its own command, if any, was harmless. */
  lemma {:induction false} CommitAllAt(
      st: State, order: seq<int>, cmd: int -> R.Command, env: Env, route: Route, names: set<string>, t: int)
    requires SafeNames(names) && NoDuplicates(order) && AddressesUnique(st.repl) && MirroredAt(st, route, names, t)
    requires forall s :: cmd(s).Effect().index in names && TouchesOnly(cmd(s).Effect(), route, s)
    ensures var after := CommitAll(st, order, cmd, env);
      && AddressesUnique(after.repl)
      && (t !in order || !Accepts(st, t, env) ==> SameAt(st, after, t) && MirroredAt(after, route, names, t))
      && (t in order && Accepts(st, t, env) ==>
            (MirroredAt(after, route, names, t) <==> Harmless(st, t, cmd(t), env)))
  {
    if order != [] {
      var init, s := order[..|order| - 1], order[|order| - 1];
      assert order == init + [s];
      CommitAllAt(st, init, cmd, env, route, names, t);
      CommitAllDbs(st, init, cmd, env, s);
      var mid := CommitAll(st, init, cmd, env);
      if Accepts(mid, s, env) {
        CommitKeepsAddresses(mid, s, cmd(s), env);
        if s == t {
          CommitHere(mid, s, cmd(s), env, route, names);
          SameHarm(st, mid, s, cmd(s), env);
        } else {
          CommitElsewhere(mid, s, cmd(s), env, route, names, t);
        }
      }
    }
  }

  lemma CommitAllMirrors(st: State, order: seq<int>, cmd: int -> R.Command, env: Env, route: Route, names: set<string>)
    requires SafeNames(names) && NoDuplicates(order) && AddressesUnique(st.repl) && Mirrored(st, route, names)
    requires forall s :: cmd(s).Effect().index in names && TouchesOnly(cmd(s).Effect(), route, s)
    ensures AddressesUnique(CommitAll(st, order, cmd, env).repl)
    ensures Mirrored(CommitAll(st, order, cmd, env), route, names) <==>
      forall s :: s in order && Accepts(st, s, env) ==> Harmless(st, s, cmd(s), env)
  {
    var after := CommitAll(st, order, cmd, env);
    forall t
      ensures MirroredAt(after, route, names, t) <==>
        (t in order && Accepts(st, t, env) ==> Harmless(st, t, cmd(t), env))
      ensures AddressesUnique(after.repl)
    {
      assert MirroredAt(st, route, names, t);
      CommitAllAt(st, order, cmd, env, route, names, t);
    }
  }

  lemma CommitMirrors(st: State, s: int, cmd: R.Command, env: Env, route: Route, names: set<string>)
    requires SafeNames(names) && cmd.Effect().index in names && AddressesUnique(st.repl)
    requires Mirrored(st, route, names) && TouchesOnly(cmd.Effect(), route, s) && s in st.dbs
    ensures Mirrored(Commit(st, s, cmd, env), route, names) <==> Harmless(st, s, cmd, env)
  {
    var after := Commit(st, s, cmd, env);
    forall t ensures MirroredAt(after, route, names, t) <==> (t == s ==> Harmless(st, s, cmd, env)) {
      assert MirroredAt(st, route, names, t);
      if t == s {
        CommitHere(st, s, cmd, env, route, names);
      } else {
        CommitElsewhere(st, s, cmd, env, route, names, t);
      }
    }
    assert MirroredAt(after, route, names, s) <==> Harmless(st, s, cmd, env);
  }

  // ----- Writes the replicas do not get -----

  /** Removals on shards alone keep the mirrors exactly when shards with followers hide nothing. */
  lemma LoneRemovals(st: State, after: State, hit: set<int>, w: Write, route: Route, names: set<string>)
    requires SafeNames(names) && w.index in names && !w.Put? && Routed(st, route, names)
    requires Mirrored(st, route, names) && Writes(st, after, hit, _ => w) && after.repl == st.repl
    ensures Mirrored(after, route, names) <==>
      forall s :: s in hit && SomeFollows(st.repl, s) ==> !Hides(st.dbs[s], w)
  {
    forall s ensures MirroredAt(after, route, names, s) <==>
      (s in hit && SomeFollows(st.repl, s) ==> !Hides(st.dbs[s], w))
    {
      assert MirroredAt(st, route, names, s);
      if s in hit {
        LoneRemovalAt(st, after, s, w, route, names);
      }
    }
  }

  lemma LoneRemovalAt(st: State, after: State, s: int, w: Write, route: Route, names: set<string>)
    requires SafeNames(names) && w.index in names && !w.Put? && Routed(st, route, names)
    requires s in st.dbs && s in after.dbs && after.dbs[s] == Apply(st.dbs[s], w) && after.repl == st.repl
    requires MirroredAt(st, route, names, s)
    ensures MirroredAt(after, route, names, s) <==> (SomeFollows(st.repl, s) ==> !Hides(st.dbs[s], w))
  {
    forall k | Follows(st.repl, s, k) ensures FollowerMirrors(after, route, names, s, k) <==> !Hides(st.dbs[s], w) {
      assert FollowerMirrors(st, route, names, s, k);
      forall e | Visible(st.dbs[s], w.index, e).Some? ensures route(e) == Some(s) {
        assert e in Members(st.dbs[s], w.index);
      }
      LoneRemoval(st.dbs[s], st.repl.stores[st.repl.replicas[s][k].address], w, route, s, names);
    }
    if SomeFollows(st.repl, s) {
      var k :| Follows(st.repl, s, k);
      assert FollowerMirrors(after, route, names, s, k) <==> !Hides(st.dbs[s], w);
    }
  }

  /** Removing the old vector from the shard alone does no harm once the new one is stored on both. */
  lemma ReplacedOnBoth(db: Db, store: Db, index: string, v: StoredVector, route: Route, s: int, names: set<string>)
    requires SafeNames(names) && index in names && Mirrors(db, store, route, s, names)
    ensures Mirrors(Apply(Apply(db, Remove(index, v.id)), Put(index, [v])), Apply(store, Put(index, [v])), route, s,
      names)
  {
    var cleared := Apply(db, Remove(index, v.id));
    forall i, e | i in names && route(e) == Some(s)
      ensures Visible(Apply(store, Put(index, [v])), i, e) == Visible(Apply(cleared, Put(index, [v])), i, e)
    {
      assert !Clash(index, i);
      SingleIsLast(v, e);
      VisibleAfterWrite(db, Remove(index, v.id), i, e);
      VisibleAfterWrite(cleared, Put(index, [v]), i, e);
      VisibleAfterWrite(store, Put(index, [v]), i, e);
    }
  }

  lemma ReplacedMirrors(st: State, s: int, index: string, v: StoredVector, env: Env, route: Route, names: set<string>)
    requires SafeNames(names) && index in names && AddressesUnique(st.repl) && Mirrored(st, route, names)
    requires s in st.dbs && route(v.id) == Some(s)
    ensures Mirrored(Commit(WriteAt(st, s, Remove(index, v.id)), s, R.Insert(index, v), env), route, names)
  {
    var cleared, cmd := WriteAt(st, s, Remove(index, v.id)), R.Insert(index, v);
    var after := Commit(cleared, s, cmd, env);
    OneVectorTouches(index, v, route, s);
    forall t ensures MirroredAt(after, route, names, t) {
      assert MirroredAt(st, route, names, t);
      if t == s {
        forall k | Follows(after.repl, s, k) ensures FollowerMirrors(after, route, names, s, k) {
          CommitFollowers(cleared, s, cmd, env, k);
          CommitStore(cleared, s, cmd, env, k);
          assert FollowerMirrors(st, route, names, s, k);
          ReplacedOnBoth(st.dbs[s], st.repl.stores[st.repl.replicas[s][k].address], index, v, route, s, names);
        }
      } else {
        assert MirroredAt(cleared, route, names, t) by {
          forall k | Follows(st.repl, t, k) ensures t in st.dbs ==> FollowerMirrors(cleared, route, names, t, k) {
            assert t in st.dbs ==> FollowerMirrors(st, route, names, t, k);
          }
        }
        CommitElsewhere(cleared, s, cmd, env, route, names, t);
      }
    }
  }

  lemma OneVectorTouches(index: string, v: StoredVector, route: Route, s: int)
    requires route(v.id) == Some(s)
    ensures TouchesOnly(Put(index, [v]), route, s)
  {
    forall e | Touches(Put(index, [v]), e) ensures route(e) == Some(s) {
      SingleIsLast(v, e);
    }
  }

  // ----- Requests -----

  lemma UpdateStays(st: State, route: Route, req: Request, env: Env, names: set<string>)
    requires SafeNames(names) && req.Update? && req.index in names && AddressesUnique(st.repl)
    requires Routed(st, route, names) && Mirrored(st, route, names)
    ensures Mirrored(Step(st, route, req, env), route, names) <==> StaysMirrored(st, route, req, env)
    ensures AddressesUnique(Step(st, route, req, env).repl)
  {
    var Update(index, id, metadata, values) := req;
    var home := Home(st, route, id);
    if Fits(st, index, values) && home.Some? {
      var s: int := home.value;
      var cleared := if s in env.refuseDelete then st else WriteAt(st, s, Remove(index, id));
      var v := StoredVector(id, metadata, env.now, values);
      if s !in env.refuse {
        CommitKeepsAddresses(cleared, s, R.Insert(index, v), env);
        if s in env.refuseDelete {
          OneVectorTouches(index, v, route, s);
          CommitMirrors(st, s, R.Insert(index, v), env, route, names);
        } else {
          ReplacedMirrors(st, s, index, v, env, route, names);
        }
      } else if s !in env.refuseDelete {
        LoneRemovals(st, cleared, {s}, Remove(index, id), route, names);
        HiddenIds(st.dbs[s], index, id);
      }
    }
  }

  lemma HiddenIds(db: Db, index: string, id: string)
    ensures Hides(db, Remove(index, id)) <==> Visible(db, index, id).Some?
  {
    if Visible(db, index, id).Some? {
      assert Touches(Remove(index, id), id);
    }
  }

  lemma InsertStays(st: State, route: Route, req: Request, env: Env, names: set<string>)
    requires SafeNames(names) && req.Insert? && req.index in names && AddressesUnique(st.repl)
    requires Mirrored(st, route, names)
    ensures Mirrored(Step(st, route, req, env), route, names) && AddressesUnique(Step(st, route, req, env).repl)
  {
    var home := Home(st, route, req.id);
    if req.values != [] && Fits(st, req.index, req.values) && home.Some? && home.value !in env.refuse {
      var v := StoredVector(req.id, req.metadata, env.now, req.values);
      OneVectorTouches(req.index, v, route, home.value);
      CommitMirrors(st, home.value, R.Insert(req.index, v), env, route, names);
      CommitKeepsAddresses(st, home.value, R.Insert(req.index, v), env);
    }
  }

  lemma DeleteStays(st: State, route: Route, req: Request, env: Env, names: set<string>)
    requires SafeNames(names) && req.Delete? && req.index in names && AddressesUnique(st.repl)
    requires Mirrored(st, route, names)
    ensures Mirrored(Step(st, route, req, env), route, names) <==> StaysMirrored(st, route, req, env)
    ensures AddressesUnique(Step(st, route, req, env).repl)
  {
    var home := Home(st, route, req.id);
    if home.Some? && home.value !in env.refuse {
      CommitMirrors(st, home.value, R.Delete(req.index, req.id), env, route, names);
      CommitKeepsAddresses(st, home.value, R.Delete(req.index, req.id), env);
    }
  }

  lemma BatchStays(st: State, route: Route, req: Request, env: Env, names: set<string>)
    requires SafeNames(names) && (req.BatchInsert? || req.BatchDelete?) && req.index in names
    requires AddressesUnique(st.repl) && Mirrored(st, route, names) && ProperOrder(st, route, req)
    ensures Mirrored(Step(st, route, req, env), route, names) <==> StaysMirrored(st, route, req, env)
    ensures AddressesUnique(Step(st, route, req, env).repl)
  {
    if req.BatchDelete? {
      forall s ensures TouchesOnly(DeleteCommand(req.index, req.ids, route)(s).Effect(), route, s) {
        BatchTouches(req.index, [], req.ids, route, s);
      }
      CommitAllMirrors(st, req.order, DeleteCommand(req.index, req.ids, route), env, route, names);
    } else if req.index in st.indexes {
      var vs := Fitting(req.items, st.indexes[req.index].dimension);
      forall s ensures TouchesOnly(InsertCommand(req.index, vs, route)(s).Effect(), route, s) {
        BatchTouches(req.index, vs, [], route, s);
      }
      CommitAllMirrors(st, req.order, InsertCommand(req.index, vs, route), env, route, names);
    }
  }

  lemma DropStays(st: State, route: Route, req: Request, env: Env, names: set<string>)
    requires SafeNames(names) && req.DropIndex? && req.index in names
    requires Routed(st, route, names) && Mirrored(st, route, names)
    ensures Mirrored(Step(st, route, req, env), route, names) <==> StaysMirrored(st, route, req, env)
  {
    if req.index in st.indexes {
      var hit := set s | s in st.dbs && Accepts(st, s, env);
      LoneRemovals(st, Step(st, route, req, env), hit, Drop(req.index), route, names);
    } else {
      assert Step(st, route, req, env) == st;
    }
  }

  /** A request keeps every active secondary exact if and only if it meets the condition beforehand. */
  lemma StepStays(st: State, route: Route, req: Request, env: Env, names: set<string>)
    requires SafeNames(names) && req.index in names && AddressesUnique(st.repl) && ProperOrder(st, route, req)
    requires Routed(st, route, names) && Mirrored(st, route, names)
    ensures Mirrored(Step(st, route, req, env), route, names) <==> StaysMirrored(st, route, req, env)
    ensures AddressesUnique(Step(st, route, req, env).repl)
  {
    match req
    case Insert(_, _, _, _) => InsertStays(st, route, req, env, names);
    case Update(_, _, _, _) => UpdateStays(st, route, req, env, names);
    case BatchInsert(_, _, _) => BatchStays(st, route, req, env, names);
    case Delete(_, _) => DeleteStays(st, route, req, env, names);
    case BatchDelete(_, _, _) => BatchStays(st, route, req, env, names);
    case CreateIndex(_, _) => SameDataMirrors(st, Step(st, route, req, env), route, names);
    case DropIndex(_) => DropStays(st, route, req, env, names);
  }

  /** The databases and stores are the same, and every follower was one before. */
  lemma SameDataMirrors(st: State, after: State, route: Route, names: set<string>)
    requires Mirrored(st, route, names) && after.dbs == st.dbs && after.repl.stores == st.repl.stores
    requires forall s, k :: Follows(after.repl, s, k) ==>
      Follows(st.repl, s, k) && after.repl.replicas[s][k].address == st.repl.replicas[s][k].address
    ensures Mirrored(after, route, names)
  {
    forall s ensures MirroredAt(after, route, names, s) {
      assert MirroredAt(st, route, names, s);
      forall k | s in st.dbs && Follows(after.repl, s, k) ensures FollowerMirrors(after, route, names, s, k) {
        assert FollowerMirrors(st, route, names, s, k);
      }
    }
  }

  // ----- Changes of the replica table -----

  ghost predicate StoreMirrors(st: State, route: Route, names: set<string>, s: int, a: string) {
    s in st.dbs ==> a in st.repl.stores && Mirrors(st.dbs[s], st.repl.stores[a], route, s, names)
  }

  /**
   * What a change of the replica table must find. The store of a registration that goes through must be
   * exact for its own shard if the node is to follow it, and for every shard with an active secondary at the
   * address; an active old primary must be exact when a promotion makes it a secondary.
   */
  ghost predicate ChangeMirrors(st: State, route: Route, names: set<string>, e: Event) {
    match e
    case RegisterReplica(shard, node, connection) =>
      R.Admits(st.repl, shard, node.address, connection.Some?) ==>
        forall s :: s in st.dbs && (FollowedAt(st.repl, s, node.address) || (s == shard && IsFollower(node))) ==>
          Mirrors(st.dbs[s], connection.value, route, s, names)
    case PromoteReplica(shard, address) =>
      R.Promotable(st.repl, shard, address) ==>
        forall k :: IsDemoted(st.repl, shard, k) && st.repl.replicas[shard][k].status == R.Active ==>
          StoreMirrors(st, route, names, shard, st.repl.replicas[shard][k].address)
    case _ => true
  }

  /** Exactness, replica by replica. */
  lemma MirroredIs(st: State, route: Route, names: set<string>)
    ensures Mirrored(st, route, names) <==> forall s, k :: Follows(st.repl, s, k) ==>
      StoreMirrors(st, route, names, s, st.repl.replicas[s][k].address)
  {
    if Mirrored(st, route, names) {
      forall s, k | Follows(st.repl, s, k)
        ensures StoreMirrors(st, route, names, s, st.repl.replicas[s][k].address)
      {
        assert MirroredAt(st, route, names, s);
        assert s in st.dbs ==> FollowerMirrors(st, route, names, s, k);
      }
    }
    if forall s, k :: Follows(st.repl, s, k) ==> StoreMirrors(st, route, names, s, st.repl.replicas[s][k].address) {
      forall s ensures MirroredAt(st, route, names, s) {
        forall k | s in st.dbs && Follows(st.repl, s, k) ensures FollowerMirrors(st, route, names, s, k) {
          assert StoreMirrors(st, route, names, s, st.repl.replicas[s][k].address);
        }
      }
    }
  }

  lemma RegisterMirrors(st: State, route: Route, names: set<string>, e: Event)
    requires e.RegisterReplica? && Mirrored(st, route, names)
    ensures Mirrored(Next(st, route, e), route, names) <==> ChangeMirrors(st, route, names, e)
  {
    var after, a := Next(st, route, e), e.node.address;
    MirroredIs(st, route, names);
    MirroredIs(after, route, names);
    if R.Admits(st.repl, e.shard, a, e.connection.Some?) {
      if Mirrored(after, route, names) {
        forall s | s in st.dbs && (FollowedAt(st.repl, s, a) || (s == e.shard && IsFollower(e.node)))
          ensures Mirrors(st.dbs[s], e.connection.value, route, s, names)
        {
          RegisteredMirrors(st, after, route, names, e, s);
        }
      }
      if ChangeMirrors(st, route, names, e) {
        forall s, k | Follows(after.repl, s, k)
          ensures StoreMirrors(after, route, names, s, after.repl.replicas[s][k].address)
        {
          EntryMirrors(st, after, route, names, e, s, k);
        }
      }
    } else {
      forall s, k | Follows(after.repl, s, k)
        ensures StoreMirrors(after, route, names, s, after.repl.replicas[s][k].address)
      {
        assert Follows(st.repl, s, k);
      }
    }
  }

  /** A registered replica, or an older one at the address, shows the new store. */
  lemma RegisteredMirrors(st: State, after: State, route: Route, names: set<string>, e: Event, s: int)
    requires e.RegisterReplica? && R.Admits(st.repl, e.shard, e.node.address, e.connection.Some?)
    requires after == st.(repl := R.Register(st.repl, e.shard, e.node, e.connection).0)
    requires forall t, k :: Follows(after.repl, t, k) ==>
      StoreMirrors(after, route, names, t, after.repl.replicas[t][k].address)
    requires s in st.dbs && (FollowedAt(st.repl, s, e.node.address) || (s == e.shard && IsFollower(e.node)))
    ensures Mirrors(st.dbs[s], e.connection.value, route, s, names)
  {
    var list' := after.repl.replicas[e.shard];
    if FollowedAt(st.repl, s, e.node.address) {
      var k :| 0 <= k < |st.repl.replicas[s]| && st.repl.replicas[s][k].address == e.node.address &&
        IsFollower(st.repl.replicas[s][k]);
      assert Follows(after.repl, s, k);
    } else {
      assert Follows(after.repl, s, |list'| - 1);
    }
  }

  lemma EntryMirrors(st: State, after: State, route: Route, names: set<string>, e: Event, s: int, k: int)
    requires e.RegisterReplica? && R.Admits(st.repl, e.shard, e.node.address, e.connection.Some?)
    requires after == st.(repl := R.Register(st.repl, e.shard, e.node, e.connection).0)
    requires Mirrored(st, route, names) && ChangeMirrors(st, route, names, e) && Follows(after.repl, s, k)
    ensures StoreMirrors(after, route, names, s, after.repl.replicas[s][k].address)
  {
    MirroredIs(st, route, names);
    if s in st.repl.replicas && k < |st.repl.replicas[s]| {
      assert Follows(st.repl, s, k);
    } else {
      assert s == e.shard && after.repl.replicas[s][k] == e.node;
    }
  }

  lemma PromoteMirrors(st: State, route: Route, names: set<string>, e: Event)
    requires e.PromoteReplica? && Mirrored(st, route, names)
    ensures Mirrored(Next(st, route, e), route, names) <==> ChangeMirrors(st, route, names, e)
  {
    var after := Next(st, route, e);
    MirroredIs(st, route, names);
    MirroredIs(after, route, names);
    if R.Promotable(st.repl, e.shard, e.address) {
      forall k | IsDemoted(st.repl, e.shard, k) && st.repl.replicas[e.shard][k].status == R.Active
        ensures Follows(after.repl, e.shard, k)
        ensures after.repl.replicas[e.shard][k].address == st.repl.replicas[e.shard][k].address
      {
      }
    }
    forall s, k | Follows(after.repl, s, k)
      ensures after.repl.replicas[s][k].address == st.repl.replicas[s][k].address
      ensures Follows(st.repl, s, k) ||
        (s == e.shard && R.Promotable(st.repl, s, e.address) && IsDemoted(st.repl, s, k) &&
         st.repl.replicas[s][k].status == R.Active)
    {
    }
  }

  /** Every event but a request keeps the replicas exact exactly under its condition. */
  lemma ChangeStays(st: State, route: Route, names: set<string>, e: Event)
    requires AddressesUnique(st.repl) && Mirrored(st, route, names) && !e.Serve?
    ensures Mirrored(Next(st, route, e), route, names) <==> ChangeMirrors(st, route, names, e)
    ensures AddressesUnique(Next(st, route, e).repl)
  {
    ChangeKeepsAddresses(st, route, e);
    match e
    case RegisterReplica(_, _, _) => RegisterMirrors(st, route, names, e);
    case PromoteReplica(_, _) => PromoteMirrors(st, route, names, e);
    case _ => SameDataMirrors(st, Next(st, route, e), route, names);
  }

  // ----- Runs -----

  ghost predicate MirroredThroughout(st: State, route: Route, events: seq<Event>, names: set<string>) {
    Mirrored(Run(st, route, events), route, names) &&
    (events != [] ==> MirroredThroughout(st, route, events[..|events| - 1], names))
  }

  /** Every request and every change of the replica table meets its condition when it happens. */
  ghost predicate AlwaysStays(st: State, route: Route, events: seq<Event>, names: set<string>) {
    events == [] ||
    var before, last := Run(st, route, events[..|events| - 1]), events[|events| - 1];
    && AlwaysStays(st, route, events[..|events| - 1], names)
    && (if last.Serve? then StaysMirrored(before, route, last.req, last.env)
        else ChangeMirrors(before, route, names, last))
  }

  ghost predicate EmptyReplicas(repl: R.State) {
    forall a :: a in repl.stores ==> repl.stores[a] == EMPTY_DB
  }

  /** Registering replicas whose databases are empty gives empty stores. */
  lemma {:induction false} RegistrationsEmpty(events: seq<R.Event>)
    requires forall i :: 0 <= i < |events| ==>
      events[i].Registering? && (events[i].connection.Some? ==> events[i].connection.value == EMPTY_DB)
    ensures EmptyReplicas(R.Run(events))
  {
    if events != [] {
      RegistrationsEmpty(events[..|events| - 1]);
    }
  }

  lemma InitiallyMirrored(st: State, route: Route, names: set<string>)
    requires Initial(st) && HasAdapters(st.repl) && EmptyReplicas(st.repl)
    ensures Mirrored(st, route, names)
  {
    forall s ensures MirroredAt(st, route, names, s) {
    }
  }

  /**
   * From empty shards and empty replicas, every active secondary shows exactly what its shard shows, in all
   * states of a run, if and only if every request, registration and promotion of the run meets its condition
   * when it happens. Shard checks, lag checks and late marks never matter.
   */
  lemma {:induction false} ReplicasAreExact(st: State, route: Route, events: seq<Event>, names: set<string>)
    requires SafeNames(names) && UsesNames(events, names) && Initial(st) && ProperRun(st, route, events)
    requires AddressesUnique(st.repl) && HasAdapters(st.repl) && EmptyReplicas(st.repl)
    ensures MirroredThroughout(st, route, events, names) <==> AlwaysStays(st, route, events, names)
    ensures AlwaysStays(st, route, events, names) ==> AddressesUnique(Run(st, route, events).repl)
  {
    if events == [] {
      InitiallyMirrored(st, route, names);
    } else {
      var init, last := events[..|events| - 1], events[|events| - 1];
      ReplicasAreExact(st, route, init, names);
      RunRefines(st, route, init, names);
      if AlwaysStays(st, route, init, names) {
        if last.Serve? {
          StepStays(Run(st, route, init), route, last.req, last.env, names);
        } else {
          ChangeStays(Run(st, route, init), route, names, last);
        }
      }
    }
  }

  // ----- A half-done update -----

  const FOLLOWER := R.Replica("r", R.Secondary, R.Active, 0)
  const FOLLOWED := ONE_SHARD.(repl := R.State(map[0 := [FOLLOWER]], map[], map["r" := EMPTY_DB], []))

  /** A vector is stored and replicated; then the shard deletes it for an update but refuses the new value. */
  function HalfDoneUpdate(): seq<Event> {
    FilledIndex() + [Serve(Request.Update("a", "x", map[], [2.0]), CALM.(refuse := {0}))]
  }

  /** Every request reaches all replicas, and no delete is refused. */
  predicate OnlyStoresRefused(events: seq<Event>) {
    forall i :: 0 <= i < |events| ==>
      events[i].Serve? && events[i].env.replicaRefuse(0) == {} && events[i].env.refuseDelete == {}
  }

  lemma FilledFollowed(route: Route)
    requires route("x") == Some(0)
    ensures ProperRun(FOLLOWED, route, FilledIndex())
    ensures var filled := Run(FOLLOWED, route, FilledIndex());
      && filled.dbs == map[0 := StoreOne(EMPTY_DB, "a", SAMPLE)] && filled.active == {0}
      && filled.indexes == map["a" := ONE_DIMENSION]
      && Follows(filled.repl, 0, 0) && filled.repl.replicas[0][0].address == "r"
      && "r" in filled.repl.stores && filled.repl.stores["r"] == StoreOne(EMPTY_DB, "a", SAMPLE)
  {
    FilledIndexRun(FOLLOWED, route);
    SingleStore(EMPTY_DB, "a", SAMPLE);
    CommitFollowers(FOLLOWED.(indexes := map["a" := ONE_DIMENSION]), 0, R.Insert("a", SAMPLE), CALM, 0);
    CommitStore(FOLLOWED.(indexes := map["a" := ONE_DIMENSION]), 0, R.Insert("a", SAMPLE), CALM, 0);
  }

  lemma HalfDoneEvents()
    ensures OnlyStoresRefused(HalfDoneUpdate())
  {
    var events := HalfDoneUpdate();
    assert |events| == 3;
    assert events[0] == Serve(CreateIndex("a", ONE_DIMENSION), CALM);
    assert events[1] == Serve(Request.Insert("a", "x", map[], [1.0]), CALM);
    assert events[2] == Serve(Request.Update("a", "x", map[], [2.0]), CALM.(refuse := {0}));
  }

  /** The shard accepts the delete of an update and refuses its store. */
  lemma HalfDoneStep(st: State, route: Route)
    requires route("x") == Some(0) && 0 in st.dbs && 0 in st.active && st.indexes == map["a" := ONE_DIMENSION]
    ensures Step(st, route, Request.Update("a", "x", map[], [2.0]), CALM.(refuse := {0})) ==
      WriteAt(st, 0, Remove("a", "x"))
  {
  }

  lemma HalfDoneRun(route: Route)
    requires route("x") == Some(0)
    ensures ProperRun(FOLLOWED, route, HalfDoneUpdate())
    ensures Run(FOLLOWED, route, HalfDoneUpdate()) ==
      WriteAt(Run(FOLLOWED, route, FilledIndex()), 0, Remove("a", "x"))
  {
    FilledFollowed(route);
    RunExtends(FOLLOWED, route, SpecOf(FOLLOWED), FilledIndex(), Request.Update("a", "x", map[], [2.0]),
      CALM.(refuse := {0}));
    HalfDoneStep(Run(FOLLOWED, route, FilledIndex()), route);
  }

  /**
   * No replica refuses anything, yet at the end the shard shows no vector and its active secondary still
   * shows the old one: the update returns before it replicates.
   */
  lemma HalfDoneUpdateLeavesReplica(route: Route)
    requires route("x") == Some(0)
    ensures FOLLOWED.repl == R.Run([] + [R.Registration(FOLLOWER)])
    ensures Initial(FOLLOWED) && ProperRun(FOLLOWED, route, HalfDoneUpdate()) && OnlyStoresRefused(HalfDoneUpdate())
    ensures var after := Run(FOLLOWED, route, HalfDoneUpdate());
      && 0 in after.dbs && Visible(after.dbs[0], "a", "x") == None
      && Follows(after.repl, 0, 0) && after.repl.replicas[0][0].address == "r" && "r" in after.repl.stores
      && Visible(after.repl.stores["r"], "a", "x") == Some(SAMPLE)
      && !Mirrored(after, route, {"a"})
  {
    R.OneRegistered(FOLLOWER);
    HalfDoneEvents();
    FilledFollowed(route);
    HalfDoneRun(route);
    ReplicaShowsMore(Run(FOLLOWED, route, FilledIndex()), route);
  }

  /** A shard that loses a vector which its active secondary keeps. */
  lemma ReplicaShowsMore(st: State, route: Route)
    requires route("x") == Some(0) && st.dbs == map[0 := StoreOne(EMPTY_DB, "a", SAMPLE)]
    requires Follows(st.repl, 0, 0) && st.repl.replicas[0][0].address == "r"
    requires "r" in st.repl.stores && st.repl.stores["r"] == StoreOne(EMPTY_DB, "a", SAMPLE)
    ensures var after := WriteAt(st, 0, Remove("a", "x"));
      && 0 in after.dbs && Visible(after.dbs[0], "a", "x") == None
      && Visible(after.repl.stores["r"], "a", "x") == Some(SAMPLE)
      && !Mirrored(after, route, {"a"})
  {
    var after := WriteAt(st, 0, Remove("a", "x"));
    DeleteOneEffect(st.dbs[0], "a", "x", "a", "x");
    assert !FollowerMirrors(after, route, {"a"}, 0, 0);
    assert !MirroredAt(after, route, {"a"}, 0);
  }

  // ----- A demoted primary -----

  const LED := ONE_SHARD.(repl :=
    R.State(map[0 := [R.PRIMARY, R.SECOND]], map[0 := "p"], map["p" := EMPTY_DB, "q" := EMPTY_DB], []))

  /** Two registrations lead there. */
  lemma LedIsRegistered()
    ensures LED.repl == R.Run(R.OnePrimary() + [R.Registration(R.SECOND)])
  {
    R.TwoRegistered(R.SECOND);
  }

  /** A vector is stored and replicated; then the secondary that has it is promoted. */
  function DemotedPrimary(): seq<Event> {
    FilledIndex() + [PromoteReplica(0, "q")]
  }

  /** A fan-out to one primary and one secondary, neither of which changes. */
  lemma PrimaryGetsNothing(repl: R.State, p: R.Replica, q: R.Replica, cmd: R.Command, now: int)
    requires repl.replicas == map[0 := [p, q]] && p.address in repl.stores && p.address != q.address
    requires p.role == R.Primary && q.lastSync == now
    ensures var after := R.Replicate(repl, 0, cmd, {}, now);
      && after.primary == repl.primary && 0 in after.replicas && after.replicas[0] == [p, q]
      && p.address in after.stores && after.stores[p.address] == repl.stores[p.address]
  {
    var list := [p, q];
    assert list[0] == p && list[1] == q;
    FanOutDelivers(repl, 0, 2, cmd, {}, now);
    assert !Receives(list, 2, p.address, {});
    var after := R.Replicate(repl, 0, cmd, {}, now).replicas[0];
    assert after[0] == DeliveredEntry(p, repl.stores.Keys, cmd, {}, now) == p;
    assert after[1] == DeliveredEntry(q, repl.stores.Keys, cmd, {}, now) == q;
  }

  lemma FilledLed(route: Route)
    requires route("x") == Some(0)
    ensures ProperRun(LED, route, FilledIndex())
    ensures var filled := Run(LED, route, FilledIndex());
      && filled.dbs == map[0 := StoreOne(EMPTY_DB, "a", SAMPLE)]
      && filled.repl == R.Replicate(LED.repl, 0, R.Insert("a", SAMPLE), {}, 0)
  {
    FilledIndexRun(LED, route);
    SingleStore(EMPTY_DB, "a", SAMPLE);
  }

  lemma DemotedStep(st: State, route: Route)
    requires 0 in st.repl.replicas && st.repl.replicas[0] == [R.PRIMARY, R.SECOND]
    requires st.repl.primary == map[0 := "p"]
    ensures var after := Next(st, route, PromoteReplica(0, "q"));
      && after.dbs == st.dbs && after.repl.stores == st.repl.stores
      && Follows(after.repl, 0, 0) && after.repl.replicas[0][0].address == "p"
  {
    assert R.IndexOf([R.PRIMARY, R.SECOND], "q") == 1 by {
      assert [R.PRIMARY, R.SECOND][1..] == [R.SECOND];
    }
  }

  /**
   * Primaries get no writes, so a primary that a promotion demotes becomes an active secondary without the
   * data: it is neither covered nor exact, although nothing was refused.
   */
  lemma DemotedPrimaryLacksData(route: Route)
    requires route("x") == Some(0)
    ensures Initial(LED) && ProperRun(LED, route, DemotedPrimary())
    ensures var after := Run(LED, route, DemotedPrimary());
      && 0 in after.dbs && Visible(after.dbs[0], "a", "x") == Some(SAMPLE)
      && Follows(after.repl, 0, 0) && after.repl.replicas[0][0].address == "p" && "p" in after.repl.stores
      && Visible(after.repl.stores["p"], "a", "x") == None
      && !Covered(after, {"a"}) && !Mirrored(after, route, {"a"})
  {
    FilledLed(route);
    PrimaryGetsNothing(LED.repl, R.PRIMARY, R.SECOND, R.Insert("a", SAMPLE), 0);
    DemotedStep(Run(LED, route, FilledIndex()), route);
    assert DemotedPrimary()[..|DemotedPrimary()| - 1] == FilledIndex();
    FollowerShowsLess(Run(LED, route, DemotedPrimary()), route);
  }

  /** An active secondary with nothing, of a shard with one vector. */
  lemma FollowerShowsLess(st: State, route: Route)
    requires route("x") == Some(0) && st.dbs == map[0 := StoreOne(EMPTY_DB, "a", SAMPLE)]
    requires Follows(st.repl, 0, 0) && st.repl.replicas[0][0].address == "p"
    requires "p" in st.repl.stores && st.repl.stores["p"] == EMPTY_DB
    ensures Visible(st.dbs[0], "a", "x") == Some(SAMPLE) && Visible(st.repl.stores["p"], "a", "x") == None
    ensures !Covered(st, {"a"}) && !Mirrored(st, route, {"a"})
  {
    assert Visible(st.dbs[0], "a", "x") == Some(SAMPLE);
    assert !ReplicaCovers(st, {"a"}, 0, st.repl.replicas[0][0]);
    assert !FollowerMirrors(st, route, {"a"}, 0, 0);
    assert !MirroredAt(st, route, {"a"}, 0);
  }
}
