/**
 * Replication as a state machine (internal/replication/manager.go): fan-out of writes with
 * fail-marking, registration, promotion and the lag check. Every call to a replica may be refused.
 */
module Replication {
  import opened Common
  import opened Vectors
  import opened Store
  import opened ReplicationLog

  datatype Role = Primary | Secondary
  datatype Health = Active | Syncing | Failed

  datatype Replica = Replica(address: string, role: Role, status: Health, lastSync: int)

  datatype State = State(
    replicas: map<int, seq<Replica>>,
    primary: map<int, string>,
    stores: map<string, Db>,
    log: seq<Entry>)

  // ----- Lists of replicas -----

  /** The position of the first replica with the address; the length if there is none. */
  function IndexOf(list: seq<Replica>, address: string): (k: nat)
    ensures k <= |list|
    ensures k < |list| ==> list[k].address == address
    ensures forall j :: 0 <= j < k ==> list[j].address != address
  {
    if list == [] || list[0].address == address then 0 else 1 + IndexOf(list[1..], address)
  }

  ghost predicate UniqueAddresses(list: seq<Replica>) {
    forall i, j :: 0 <= i < j < |list| ==> list[i].address != list[j].address
  }

  function MarkFailed(list: seq<Replica>, address: string): (after: seq<Replica>)
    ensures |after| == |list|
  {
    var k := IndexOf(list, address);
    if k == |list| then list else list[k := list[k].(status := Failed)]
  }

  function Synced(list: seq<Replica>, address: string, now: int): (after: seq<Replica>)
    ensures |after| == |list|
  {
    var k := IndexOf(list, address);
    if k == |list| then list else list[k := list[k].(lastSync := now)]
  }

  // ----- Fan-out -----

  /** What a shard forwards to its replicas. */
  datatype Command =
    | Insert(index: string, vector: StoredVector)
    | BatchInsert(index: string, vectors: seq<StoredVector>)
    | Delete(index: string, id: string)
    | BatchDelete(index: string, ids: seq<string>)
  {
    function Effect(): Write {
      match this
      case Insert(i, v) => Put(i, [v])
      case BatchInsert(i, vs) => Put(i, vs)
      case Delete(i, id) => Remove(i, id)
      case BatchDelete(i, ids) => RemoveMany(i, ids)
    }

    /** Only a refused store marks the replica failed; a refused delete is just logged. */
    predicate FailsReplica() {
      Insert? || BatchInsert?
    }

    /** The batch commands write no log entries. */
    function LogEntries(now: int, shard: int, success: bool): seq<Entry> {
      match this
      case Insert(_, v) => [Entry(now, shard, "insert", v.id, success)]
      case Delete(_, id) => [Entry(now, shard, "delete", id, success)]
      case _ => []
    }
  }

  /** What happens in the goroutine of replica k; only active secondaries have one. */
  function Deliver(st: State, shard: int, k: nat, cmd: Command, refuse: set<string>, now: int): State {
    if shard !in st.replicas || k >= |st.replicas[shard]| then st
    else
      var list := st.replicas[shard];
      var address := list[k].address;
      if list[k].status != Active || list[k].role == Primary || address !in st.stores then st
      else if address in refuse then
        st.(log := AppendAll(st.log, cmd.LogEntries(now, shard, false)),
            replicas := st.replicas[shard := if cmd.FailsReplica() then MarkFailed(list, address) else list])
      else
        st.(stores := st.stores[address := Apply(st.stores[address], cmd.Effect())],
            log := AppendAll(st.log, cmd.LogEntries(now, shard, true)),
            replicas := st.replicas[shard := Synced(list, address, now)])
  }

  /** The first n replicas have been served. */
  function FanOut(st: State, shard: int, n: nat, cmd: Command, refuse: set<string>, now: int): State {
    if n == 0 then st else Deliver(FanOut(st, shard, n - 1, cmd, refuse, now), shard, n - 1, cmd, refuse, now)
  }

  function Replicate(st: State, shard: int, cmd: Command, refuse: set<string>, now: int): State {
    if shard !in st.replicas then st
    else FanOut(st, shard, |st.replicas[shard]|, cmd, refuse, now)
  }

  // ----- Registration, promotion, lag check -----

  /** A registration attempt leaves the shard with a list, even when it fails. */
  function WithList(st: State, shard: int): State {
    st.(replicas := st.replicas[shard := if shard in st.replicas then st.replicas[shard] else []])
  }

  function Attached(st: State, shard: int, node: Replica, db: Db): State
    requires shard in st.replicas
  {
    st.(replicas := st.replicas[shard := st.replicas[shard] + [node]],
        stores := st.stores[node.address := db],
        primary := if node.role == Primary then st.primary[shard := node.address] else st.primary)
  }

  /** The address is new to the shard and can be reached. */
  predicate Admits(st: State, shard: int, address: string, reachable: bool) {
    reachable && (shard in st.replicas ==> IndexOf(st.replicas[shard], address) == |st.replicas[shard]|)
  }

  /** connection is the database behind the new replica's address, None when it cannot be reached. */
  function Register(st: State, shard: int, node: Replica, connection: Option<Db>): (State, bool) {
    var listed := WithList(st, shard);
    if Admits(st, shard, node.address, connection.Some?) then
      (Attached(listed, shard, node, connection.value), true)
    else (listed, false)
  }

  /** Go's map read: an unknown shard has the empty address as its old primary. */
  function OldPrimary(st: State, shard: int): string {
    if shard in st.primary then st.primary[shard] else ""
  }

  function Promoted(r: Replica, old_: string, target: string): Replica {
    if r.address == old_ then r.(role := Secondary)
    else if r.address == target then r.(role := Primary)
    else r
  }

  function PromotedList(list: seq<Replica>, old_: string, target: string): (after: seq<Replica>)
    ensures |after| == |list|
    ensures forall i :: 0 <= i < |list| ==> after[i] == Promoted(list[i], old_, target)
  {
    seq(|list|, i requires 0 <= i < |list| => Promoted(list[i], old_, target))
  }

  function Promote(st: State, shard: int, address: string): (State, bool) {
    if shard !in st.replicas then (st, false)
    else
      var list := st.replicas[shard];
      var k := IndexOf(list, address);
      if k == |list| || list[k].status != Active then (st, false)
      else
        (st.(replicas := st.replicas[shard := PromotedList(list, OldPrimary(st, shard), address)],
             primary := st.primary[shard := address]), true)
  }

  datatype Limits = Limits(maxLag: int, failoverTimeout: int)

  function LagChecked(r: Replica, now: int, limits: Limits): Replica {
    var lag := now - r.lastSync;
    if r.role != Primary && lag > limits.maxLag && lag > limits.failoverTimeout then r.(status := Failed) else r
  }

  function LagCheckedList(list: seq<Replica>, now: int, limits: Limits): (after: seq<Replica>)
    ensures |after| == |list|
    ensures forall i :: 0 <= i < |list| ==> after[i] == LagChecked(list[i], now, limits)
  {
    seq(|list|, i requires 0 <= i < |list| => LagChecked(list[i], now, limits))
  }

  /** The lag check, each role check and its mark taken as one step. */
  function CheckLag(st: State, now: int, limits: Limits): State {
    st.(replicas := map s | s in st.replicas :: LagCheckedList(st.replicas[s], now, limits))
  }

  /** The mark on its own: the role check or the refused call that leads to it came earlier. */
  function Mark(st: State, shard: int, address: string): State {
    if shard !in st.replicas then st
    else st.(replicas := st.replicas[shard := MarkFailed(st.replicas[shard], address)])
  }

  // ----- Runs -----

  /** Lag checks and fan-outs may also be taken apart: a mark can come any time after the read behind it. */
  datatype Event =
    | Registering(shard: int, node: Replica, connection: Option<Db>)
    | Replicating(shard: int, cmd: Command, refuse: set<string>, now: int)
    | Promoting(shard: int, address: string)
    | CheckingLag(now: int, limits: Limits)
    | Marking(shard: int, address: string)

  function Step(st: State, e: Event): State {
    match e
    case Registering(shard, node, connection) => Register(st, shard, node, connection).0
    case Replicating(shard, cmd, refuse, now) => Replicate(st, shard, cmd, refuse, now)
    case Promoting(shard, address) => Promote(st, shard, address).0
    case CheckingLag(now, limits) => CheckLag(st, now, limits)
    case Marking(shard, address) => Mark(st, shard, address)
  }

  const EMPTY := State(map[], map[], map[], [])

  function Run(events: seq<Event>): State {
    if events == [] then EMPTY else Step(Run(events[..|events| - 1]), events[|events| - 1])
  }

  // ----- One primary per shard -----

  ghost predicate Registered(st: State, shard: int, address: string) {
    shard in st.replicas &&
    exists i :: 0 <= i < |st.replicas[shard]| && st.replicas[shard][i].address == address
  }

  /** Addresses are unique, and the primary-role replica of a shard is the one primaryNodes names, if any. */
  ghost predicate PrimaryAgrees(st: State, shard: int) {
    && (shard in st.primary ==> Registered(st, shard, st.primary[shard]))
    && (shard in st.replicas ==>
          && UniqueAddresses(st.replicas[shard])
          && forall i :: 0 <= i < |st.replicas[shard]| ==>
               (st.replicas[shard][i].role == Primary <==>
                shard in st.primary && st.replicas[shard][i].address == st.primary[shard]))
  }

  ghost predicate PrimariesAgree(st: State) {
    forall shard :: PrimaryAgrees(st, shard)
  }

  ghost predicate PrimariesActive(st: State) {
    forall shard, i ::
      (shard in st.replicas && 0 <= i < |st.replicas[shard]| && st.replicas[shard][i].role == Primary) ==>
        st.replicas[shard][i].status == Active
  }

  /** The shard is known, and its first replica with the address exists and is active. */
  predicate Promotable(st: State, shard: int, address: string) {
    shard in st.replicas &&
    var k := IndexOf(st.replicas[shard], address);
    k < |st.replicas[shard]| && st.replicas[shard][k].status == Active
  }

  /** The address is the named primary's; without one, the empty address counts as it. */
  predicate AimsAtPrimary(st: State, shard: int, address: string) {
    if shard in st.primary then address == st.primary[shard] else address == ""
  }

  /** A promotion keeps the agreement exactly when it is refused or not aimed at the current primary. */
  lemma PromoteKeepsAgreement(st: State, shard: int, address: string)
    requires PrimariesAgree(st)
    ensures PrimariesAgree(Promote(st, shard, address).0) <==>
      (Promotable(st, shard, address) ==> !AimsAtPrimary(st, shard, address))
  {
    var (after, ok) := Promote(st, shard, address);
    if Promotable(st, shard, address) {
      assert PrimaryAgrees(st, shard);
      if address != OldPrimary(st, shard) {
        PromotedAgrees(st, shard, address);
        forall s | s != shard ensures PrimaryAgrees(after, s) {
          assert PrimaryAgrees(st, s);
          OthersAgree(st, after, s);
        }
      } else {
        var k := IndexOf(st.replicas[shard], address);
        assert after.replicas[shard][k].address == address && after.replicas[shard][k].role == Secondary;
        assert !PrimaryAgrees(after, shard);
      }
    }
  }

  lemma PromotedAgrees(st: State, shard: int, address: string)
    requires PrimaryAgrees(st, shard) && Promotable(st, shard, address) && address != OldPrimary(st, shard)
    ensures PrimaryAgrees(Promote(st, shard, address).0, shard)
  {
    var after := Promote(st, shard, address).0;
    var list, list' := st.replicas[shard], after.replicas[shard];
    var k := IndexOf(list, address);
    assert list'[k].address == address;
    assert Registered(after, shard, address);
    forall i | 0 <= i < |list'| ensures list'[i].role == Primary <==> list'[i].address == address {
      assert list'[i].address == list[i].address;
      assert i != k ==> list[i].address != list[k].address;
    }
  }

  lemma OthersAgree(st: State, after: State, s: int)
    requires PrimaryAgrees(st, s)
    requires s in st.replicas <==> s in after.replicas
    requires s in st.replicas ==> st.replicas[s] == after.replicas[s]
    requires s in st.primary <==> s in after.primary
    requires s in st.primary ==> st.primary[s] == after.primary[s]
    ensures PrimaryAgrees(after, s)
  {
  }

  /** A registration keeps it exactly when it does not bring a second primary to the shard. */
  lemma RegisterKeepsAgreement(st: State, shard: int, node: Replica, connection: Option<Db>)
    requires PrimariesAgree(st)
    ensures PrimariesAgree(Register(st, shard, node, connection).0) <==>
      (Admits(st, shard, node.address, connection.Some?) && node.role == Primary ==> shard !in st.primary)
  {
    var (after, ok) := Register(st, shard, node, connection);
    assert PrimaryAgrees(st, shard);
    var list' := after.replicas[shard];
    if ok && node.role == Primary && shard in st.primary {
      var k :| 0 <= k < |st.replicas[shard]| && st.replicas[shard][k].address == st.primary[shard];
      assert list'[k].role == Primary && list'[k].address != after.primary[shard];
      assert !PrimaryAgrees(after, shard);
    } else {
      RegisteredHere(st, shard, node, connection);
      forall s | s != shard ensures PrimaryAgrees(after, s) {
        assert PrimaryAgrees(st, s);
        OthersAgree(st, after, s);
      }
    }
  }

  lemma RegisteredHere(st: State, shard: int, node: Replica, connection: Option<Db>)
    requires PrimaryAgrees(st, shard)
    requires Admits(st, shard, node.address, connection.Some?) && node.role == Primary ==> shard !in st.primary
    ensures PrimaryAgrees(Register(st, shard, node, connection).0, shard)
  {
    var (after, ok) := Register(st, shard, node, connection);
    var list' := after.replicas[shard];
    if shard in st.primary {
      var k :| 0 <= k < |st.replicas[shard]| && st.replicas[shard][k].address == st.primary[shard];
      assert list'[k].address == st.primary[shard];
    }
    if ok {
      assert list'[|list'| - 1] == node;
    }
  }

  /** The step neither moves a replica nor changes a role; failed stays failed and nothing is revived. */
  ghost predicate KeepsRoles(st: State, after: State) {
    && after.replicas.Keys == st.replicas.Keys && after.primary == st.primary
    && forall s :: s in st.replicas ==> ListKeepsRoles(st.replicas[s], after.replicas[s])
  }

  ghost predicate ListKeepsRoles(list: seq<Replica>, after: seq<Replica>) {
    && |after| == |list|
    && forall i :: 0 <= i < |list| ==> after[i].role == list[i].role && OnlyAges(list[i], after[i])
  }

  /** Same address; a failed replica stays failed; a status is never raised to active. */
  predicate OnlyAges(r: Replica, after: Replica) {
    && after.address == r.address
    && (r.status == Failed ==> after.status == Failed)
    && (after.status == Active ==> r.status == Active)
  }

  lemma KeepsRolesKeepsAgreement(st: State, after: State)
    requires PrimariesAgree(st) && KeepsRoles(st, after)
    ensures PrimariesAgree(after)
  {
    forall s ensures PrimaryAgrees(after, s) {
      assert PrimaryAgrees(st, s);
      if s in st.primary {
        var k :| 0 <= k < |st.replicas[s]| && st.replicas[s][k].address == st.primary[s];
        assert after.replicas[s][k].address == st.primary[s];
      }
    }
  }

  lemma DeliverKeepsRoles(st: State, mid: State, shard: int, k: nat, cmd: Command, refuse: set<string>, now: int)
    requires KeepsRoles(st, mid)
    ensures KeepsRoles(st, Deliver(mid, shard, k, cmd, refuse, now))
  {
  }

  lemma NothingChanged(st: State)
    ensures KeepsRoles(st, st)
  {
  }

  lemma {:induction false} FanOutKeepsRoles(st: State, shard: int, n: nat, cmd: Command, refuse: set<string>, now: int)
    ensures KeepsRoles(st, FanOut(st, shard, n, cmd, refuse, now))
  {
    if n == 0 {
      NothingChanged(st);
    } else {
      var mid := FanOut(st, shard, n - 1, cmd, refuse, now);
      FanOutKeepsRoles(st, shard, n - 1, cmd, refuse, now);
      DeliverKeepsRoles(st, mid, shard, n - 1, cmd, refuse, now);
      assert FanOut(st, shard, n, cmd, refuse, now) == Deliver(mid, shard, n - 1, cmd, refuse, now);
    }
  }

  lemma UniqueIndex(list: seq<Replica>, k: nat)
    requires UniqueAddresses(list) && k < |list|
    ensures IndexOf(list, list[k].address) == k
  {
  }

  ghost predicate PrimariesSound(st: State) {
    PrimariesAgree(st) && PrimariesActive(st)
  }

  lemma DeliverKeepsPrimaries(st: State, shard: int, k: nat, cmd: Command, refuse: set<string>, now: int)
    requires PrimariesSound(st)
    ensures PrimariesSound(Deliver(st, shard, k, cmd, refuse, now))
  {
    if shard in st.replicas && k < |st.replicas[shard]| {
      assert PrimaryAgrees(st, shard);
      UniqueIndex(st.replicas[shard], k);
      NothingChanged(st);
      DeliverKeepsRoles(st, st, shard, k, cmd, refuse, now);
      KeepsRolesKeepsAgreement(st, Deliver(st, shard, k, cmd, refuse, now));
      DeliverKeepsActive(st, shard, k, cmd, refuse, now);
    }
  }

  /** A delivery rewrites the record of a secondary, found at its own position. */
  lemma DeliverKeepsActive(st: State, shard: int, k: nat, cmd: Command, refuse: set<string>, now: int)
    requires PrimariesActive(st) && shard in st.replicas && k < |st.replicas[shard]|
    requires IndexOf(st.replicas[shard], st.replicas[shard][k].address) == k
    ensures PrimariesActive(Deliver(st, shard, k, cmd, refuse, now))
  {
    var after := Deliver(st, shard, k, cmd, refuse, now);
    forall s, i | s in after.replicas && 0 <= i < |after.replicas[s]| && after.replicas[s][i].role == Primary
      ensures after.replicas[s][i].status == Active
    {
      assert st.replicas[s][i].role == Primary;
    }
  }

  /** Fan-out never touches a primary, so every primary stays active. */
  lemma {:induction false} FanOutKeepsPrimaries(
      st: State, shard: int, n: nat, cmd: Command, refuse: set<string>, now: int)
    requires PrimariesSound(st)
    ensures PrimariesSound(FanOut(st, shard, n, cmd, refuse, now))
  {
    if n > 0 {
      FanOutKeepsPrimaries(st, shard, n - 1, cmd, refuse, now);
      DeliverKeepsPrimaries(FanOut(st, shard, n - 1, cmd, refuse, now), shard, n - 1, cmd, refuse, now);
    }
  }

  // ----- Runs of the replica table -----

  /** A promotion that goes through is not aimed at the current primary, and no shard gets a second primary. */
  predicate KeepsToOnePrimary(st: State, e: Event) {
    match e
    case Registering(shard, node, connection) =>
      Admits(st, shard, node.address, connection.Some?) && node.role == Primary ==> shard !in st.primary
    case Promoting(shard, address) => Promotable(st, shard, address) ==> !AimsAtPrimary(st, shard, address)
    case _ => true
  }

  lemma StepKeepsAgreement(st: State, e: Event)
    requires PrimariesAgree(st)
    ensures PrimariesAgree(Step(st, e)) <==> KeepsToOnePrimary(st, e)
  {
    match e
    case Registering(shard, node, connection) =>
      RegisterKeepsAgreement(st, shard, node, connection);
    case Promoting(shard, address) =>
      PromoteKeepsAgreement(st, shard, address);
    case CheckingLag(now, limits) =>
      KeepsRolesKeepsAgreement(st, CheckLag(st, now, limits));
    case Replicating(shard, cmd, refuse, now) =>
      if shard in st.replicas {
        FanOutKeepsRoles(st, shard, |st.replicas[shard]|, cmd, refuse, now);
        KeepsRolesKeepsAgreement(st, Step(st, e));
      }
    case Marking(shard, address) =>
      KeepsRolesKeepsAgreement(st, Mark(st, shard, address));
  }

  ghost predicate AgreesThroughout(events: seq<Event>) {
    PrimariesAgree(Run(events)) && (events != [] ==> AgreesThroughout(events[..|events| - 1]))
  }

  predicate OnePrimaryRun(events: seq<Event>) {
    events == [] ||
    (OnePrimaryRun(events[..|events| - 1]) && KeepsToOnePrimary(Run(events[..|events| - 1]), events[|events| - 1]))
  }

  /**
   * In all states of a run the primary role is held by the named replica alone, if and only if no shard is
   * given a second primary and no promotion is aimed at the current one. Statuses do not matter.
   */
  lemma {:induction false} RunKeepsAgreement(events: seq<Event>)
    ensures AgreesThroughout(events) <==> OnePrimaryRun(events)
  {
    if events != [] {
      RunKeepsAgreement(events[..|events| - 1]);
      if AgreesThroughout(events[..|events| - 1]) {
        StepKeepsAgreement(Run(events[..|events| - 1]), events[|events| - 1]);
      }
    }
  }

  /** At most one replica of a shard has the primary role, and it is the one primaryNodes names. */
  lemma OnePrimaryAtMost(events: seq<Event>, shard: int, i: nat, j: nat)
    requires OnePrimaryRun(events)
    requires var st := Run(events); shard in st.replicas && i < |st.replicas[shard]| && j < |st.replicas[shard]|
    requires var list := Run(events).replicas[shard]; list[i].role == Primary && list[j].role == Primary
    ensures var st := Run(events);
      i == j && shard in st.primary && st.replicas[shard][i].address == st.primary[shard]
  {
    RunKeepsAgreement(events);
    assert PrimaryAgrees(Run(events), shard);
  }

  /**
   * A registration that goes through puts the node behind the shard's others, its database at its address,
   * and names it if it is a primary; a refused one leaves the shard with a list. Nothing else changes.
   */
  lemma RegisterEffect(st: State, shard: int, node: Replica, connection: Option<Db>)
    ensures var after := Register(st, shard, node, connection).0;
      var admitted := connection.Some? &&
        (shard in st.replicas ==> forall i :: 0 <= i < |st.replicas[shard]| ==>
          st.replicas[shard][i].address != node.address);
      && shard in after.replicas && after.log == st.log
      && after.replicas.Keys == st.replicas.Keys + {shard}
      && (forall s :: s in st.replicas && s != shard ==> after.replicas[s] == st.replicas[s])
      && after.replicas[shard] ==
           (if shard in st.replicas then st.replicas[shard] else []) + (if admitted then [node] else [])
      && after.stores == (if admitted then st.stores[node.address := connection.value] else st.stores)
      && after.primary == if admitted && node.role == Primary then st.primary[shard := node.address] else st.primary
  {
  }

  // ----- Two runs that break the agreement -----

  const PRIMARY := Replica("p", Primary, Active, 0)
  const OTHER := Replica("q", Primary, Active, 0)
  const SECOND := Replica("q", Secondary, Active, 0)

  function Registration(node: Replica): Event {
    Registering(0, node, Some(EMPTY_DB))
  }

  /** One primary of shard 0. */
  function OnePrimary(): seq<Event> {
    [] + [Registration(PRIMARY)]
  }

  lemma RunMore(events: seq<Event>, e: Event)
    ensures Run(events + [e]) == Step(Run(events), e)
  {
    assert (events + [e])[..|events + [e]| - 1] == events;
  }

  lemma OneRegistered(node: Replica)
    ensures var st := Run([] + [Registration(node)]);
      && st.replicas == map[0 := [node]] && st.stores == map[node.address := EMPTY_DB]
      && st.primary == (if node.role == Primary then map[0 := node.address] else map[]) && st.log == []
  {
    RunMore([], Registration(node));
    assert [] + [node] == [node];
  }

  /** Promoting the only replica of shard 0. */
  lemma PromotedAlone(st: State, r: Replica)
    requires st.replicas == map[0 := [r]] && r.status == Active
    ensures var after := Promote(st, 0, r.address).0;
      && after.replicas == map[0 := [Promoted(r, OldPrimary(st, 0), r.address)]]
      && after.primary == st.primary[0 := r.address]
  {
    var list := [r];
    assert list[0] == r && st.replicas[0] == list;
    assert PromotedList(list, OldPrimary(st, 0), r.address) == [Promoted(r, OldPrimary(st, 0), r.address)];
  }

  lemma NamedButSecondary(st: State)
    requires 0 in st.primary && 0 in st.replicas && |st.replicas[0]| == 1
    requires st.replicas[0][0].address == st.primary[0] && st.replicas[0][0].role == Secondary
    ensures !PrimariesAgree(st)
  {
    assert !PrimaryAgrees(st, 0);
  }

  /** Promoting the current primary demotes it, and it stays named. */
  lemma PromotingThePrimaryDemotesIt()
    ensures PrimariesAgree(Run(OnePrimary()))
    ensures var st := Run(OnePrimary() + [Promoting(0, "p")]);
      && st.replicas == map[0 := [PRIMARY.(role := Secondary)]] && st.primary == map[0 := "p"]
      && !PrimariesAgree(st)
  {
    OneRegistered(PRIMARY);
    var before := Run(OnePrimary());
    AloneAgrees(before, PRIMARY);
    PromotedAlone(before, PRIMARY);
    RunMore(OnePrimary(), Promoting(0, "p"));
    NamedButSecondary(Run(OnePrimary() + [Promoting(0, "p")]));
  }

  lemma AloneAgrees(st: State, r: Replica)
    requires st.replicas == map[0 := [r]]
    requires st.primary == if r.role == Primary then map[0 := r.address] else map[]
    ensures PrimariesAgree(st)
  {
    assert [r][0] == r;
    forall s ensures PrimaryAgrees(st, s) {
      assert s == 0 ==> st.replicas[s][0] == r;
    }
  }

  lemma TwoRegistered(node: Replica)
    requires node.address == "q"
    ensures var st := Run(OnePrimary() + [Registration(node)]);
      && st.replicas == map[0 := [PRIMARY, node]] && st.stores == map["p" := EMPTY_DB, "q" := EMPTY_DB]
      && st.primary == map[0 := if node.role == Primary then "q" else "p"] && st.log == []
  {
    OneRegistered(PRIMARY);
    var before := Run(OnePrimary());
    assert before.replicas[0] == [PRIMARY] && IndexOf([PRIMARY], "q") == 1;
    RunMore(OnePrimary(), Registration(node));
    assert [PRIMARY] + [node] == [PRIMARY, node];
  }

  /** A second primary is accepted beside the first. */
  lemma SecondPrimaryIsAccepted()
    ensures var st := Run(OnePrimary() + [Registration(OTHER)]);
      && st.replicas == map[0 := [PRIMARY, OTHER]] && st.primary == map[0 := "q"]
      && !PrimariesAgree(st)
  {
    TwoRegistered(OTHER);
    var st := Run(OnePrimary() + [Registration(OTHER)]);
    assert st.replicas[0][0].role == Primary;
    assert !PrimaryAgrees(st, 0);
  }

  // ----- Primaries stay active -----

  /** The address primaryNodes names for the shard. */
  predicate Names(st: State, shard: int, address: string) {
    shard in st.primary && st.primary[shard] == address
  }

  /** Besides the agreement: a primary is registered active, and no mark hits the named primary. */
  predicate KeepsPrimary(st: State, e: Event) {
    KeepsToOnePrimary(st, e) &&
    match e
    case Registering(shard, node, connection) =>
      Admits(st, shard, node.address, connection.Some?) && node.role == Primary ==> node.status == Active
    case Marking(shard, address) => !Names(st, shard, address)
    case _ => true
  }

  ghost predicate SoundThroughout(events: seq<Event>) {
    PrimariesSound(Run(events)) && (events != [] ==> SoundThroughout(events[..|events| - 1]))
  }

  predicate KeepsPrimaryThroughout(events: seq<Event>) {
    events == [] ||
    (KeepsPrimaryThroughout(events[..|events| - 1]) && KeepsPrimary(Run(events[..|events| - 1]), events[|events| - 1]))
  }

  /**
   * In all states of a run, late marks included, each primary-role replica is the named one and active, if
   * and only if every event keeps to one primary, registers primaries active, and marks no named primary.
   */
  lemma {:induction false} RunKeepsPrimaries(events: seq<Event>)
    ensures SoundThroughout(events) <==> KeepsPrimaryThroughout(events)
  {
    if events != [] {
      RunKeepsPrimaries(events[..|events| - 1]);
      if SoundThroughout(events[..|events| - 1]) {
        StepKeepsPrimaries(Run(events[..|events| - 1]), events[|events| - 1]);
      }
    }
  }

  /** The mark fails the first replica with the address. */
  lemma MarkKeepsActive(st: State, shard: int, address: string)
    requires PrimariesActive(st)
    ensures PrimariesActive(Mark(st, shard, address)) <==>
      (shard in st.replicas && IndexOf(st.replicas[shard], address) < |st.replicas[shard]| ==>
        st.replicas[shard][IndexOf(st.replicas[shard], address)].role == Secondary)
  {
    var after := Mark(st, shard, address);
    if shard in st.replicas {
      var list := st.replicas[shard];
      var k := IndexOf(list, address);
      if k < |list| {
        assert after.replicas[shard][k] == list[k].(status := Failed);
      }
    }
  }

  /** A mark fails a primary exactly when it hits the named one. */
  lemma MarkKeepsPrimaries(st: State, shard: int, address: string)
    requires PrimariesSound(st)
    ensures PrimariesSound(Mark(st, shard, address)) <==> !Names(st, shard, address)
  {
    KeepsRolesKeepsAgreement(st, Mark(st, shard, address));
    MarkKeepsActive(st, shard, address);
    assert PrimaryAgrees(st, shard);
  }

  /** A registration that goes through leaves its node at the end of the list. */
  lemma RegisterKeepsActive(st: State, shard: int, node: Replica, connection: Option<Db>)
    requires PrimariesActive(st)
    ensures PrimariesActive(Register(st, shard, node, connection).0) <==>
      (Admits(st, shard, node.address, connection.Some?) && node.role == Primary ==> node.status == Active)
  {
    var after, admitted :=
      Register(st, shard, node, connection).0, Admits(st, shard, node.address, connection.Some?);
    var list' := after.replicas[shard];
    if admitted {
      assert list'[|list'| - 1] == node;
    }
    if admitted && node.role == Primary ==> node.status == Active {
      forall s, i | s in after.replicas && 0 <= i < |after.replicas[s]| && after.replicas[s][i].role == Primary
        ensures after.replicas[s][i].status == Active
      {
        if s != shard || !admitted || i < |list'| - 1 {
          assert after.replicas[s][i] == st.replicas[s][i];
        }
      }
    }
  }

  lemma CheckLagKeepsActive(st: State, now: int, limits: Limits)
    requires PrimariesActive(st)
    ensures PrimariesActive(CheckLag(st, now, limits))
  {
    var after := CheckLag(st, now, limits);
    forall s, i | s in after.replicas && 0 <= i < |after.replicas[s]| && after.replicas[s][i].role == Primary
      ensures after.replicas[s][i].status == Active
    {
      assert st.replicas[s][i].role == Primary;
    }
  }

  lemma StepKeepsPrimaries(st: State, e: Event)
    requires PrimariesSound(st)
    ensures PrimariesSound(Step(st, e)) <==> KeepsPrimary(st, e)
  {
    StepKeepsAgreement(st, e);
    match e
    case Registering(shard, node, connection) =>
      RegisterKeepsActive(st, shard, node, connection);
    case Promoting(shard, address) =>
      PromoteKeepsActive(st, shard, address);
    case CheckingLag(now, limits) =>
      CheckLagKeepsActive(st, now, limits);
    case Replicating(shard, cmd, refuse, now) =>
      if shard in st.replicas {
        FanOutKeepsPrimaries(st, shard, |st.replicas[shard]|, cmd, refuse, now);
      }
    case Marking(shard, address) =>
      MarkKeepsPrimaries(st, shard, address);
  }

  lemma PromoteKeepsActive(st: State, shard: int, address: string)
    requires PrimariesAgree(st) && PrimariesActive(st)
    ensures PrimariesActive(Promote(st, shard, address).0)
  {
    if Promote(st, shard, address).1 {
      assert PrimaryAgrees(st, shard);
      var list := st.replicas[shard];
      var k := IndexOf(list, address);
      forall i | 0 <= i < |list| && list[i].address == address ensures i == k {
      }
    }
  }

  function RunFrom(st: State, events: seq<Event>): State {
    if events == [] then st else Step(RunFrom(st, events[..|events| - 1]), events[|events| - 1])
  }

  lemma PromoteOnlyAges(st: State, shard: int, address: string, s: int, i: nat)
    requires s in st.replicas && i < |st.replicas[s]|
    ensures var after := Promote(st, shard, address).0;
      s in after.replicas && i < |after.replicas[s]| && OnlyAges(st.replicas[s][i], after.replicas[s][i])
  {
  }

  lemma StepOnlyAges(st: State, e: Event, s: int, i: nat)
    requires s in st.replicas && i < |st.replicas[s]|
    ensures var after := Step(st, e);
      s in after.replicas && i < |after.replicas[s]| && OnlyAges(st.replicas[s][i], after.replicas[s][i])
  {
    match e
    case Registering(shard, node, connection) =>
      assert s in Register(st, shard, node, connection).0.replicas;
      assert Register(st, shard, node, connection).0.replicas[s][i] == st.replicas[s][i];
    case Promoting(shard, address) =>
      PromoteOnlyAges(st, shard, address, s, i);
    case CheckingLag(_, _) =>
    case Replicating(shard, cmd, refuse, now) =>
      if shard in st.replicas {
        FanOutKeepsRoles(st, shard, |st.replicas[shard]|, cmd, refuse, now);
        assert ListKeepsRoles(st.replicas[s], Step(st, e).replicas[s]);
      }
    case Marking(_, _) =>
  }

  /** Once failed, always failed: no event, however undisciplined, brings a replica back. */
  lemma {:induction false} FailedIsAbsorbing(st: State, events: seq<Event>, s: int, i: nat)
    requires s in st.replicas && i < |st.replicas[s]|
    ensures var after := RunFrom(st, events);
      s in after.replicas && i < |after.replicas[s]| && OnlyAges(st.replicas[s][i], after.replicas[s][i])
  {
    if events != [] {
      FailedIsAbsorbing(st, events[..|events| - 1], s, i);
      StepOnlyAges(RunFrom(st, events[..|events| - 1]), events[|events| - 1], s, i);
    }
  }

  // ----- Whom a lag check fails -----

  /** The lag check reads this replica as a secondary that is behind by more than both limits. */
  predicate ChosenByLag(r: Replica, now: int, limits: Limits) {
    r.role == Secondary && now - r.lastSync > limits.maxLag && now - r.lastSync > limits.failoverTimeout
  }

  /** A lag check fails exactly the replicas it chooses, keeps failed ones failed, and changes nothing else. */
  lemma CheckLagFails(st: State, now: int, limits: Limits, s: int, i: nat)
    requires s in st.replicas && i < |st.replicas[s]|
    ensures var after := CheckLag(st, now, limits);
      && after.replicas.Keys == st.replicas.Keys && |after.replicas[s]| == |st.replicas[s]|
      && after.primary == st.primary && after.stores == st.stores && after.log == st.log
      && var r, r' := st.replicas[s][i], after.replicas[s][i];
         && (r'.status == Failed <==> r.status == Failed || ChosenByLag(r, now, limits))
         && r' == r.(status := r'.status) && (r'.status == Failed || r'.status == r.status)
  {
  }

  // ----- Late marks -----

  /** A fan-out reads this replica as one to serve. */
  predicate ChosenByFanOut(r: Replica) {
    r.role == Secondary && r.status == Active
  }

  /** No event of the run promotes the replica. */
  predicate NeverPromoted(events: seq<Event>, shard: int, address: string) {
    forall i :: 0 <= i < |events| ==> events[i] != Promoting(shard, address)
  }

  lemma StepNamesOnlyPromoted(st: State, e: Event, shard: int, address: string)
    requires Registered(st, shard, address) && !Names(st, shard, address) && e != Promoting(shard, address)
    ensures Registered(Step(st, e), shard, address) && !Names(Step(st, e), shard, address)
  {
    var i :| 0 <= i < |st.replicas[shard]| && st.replicas[shard][i].address == address;
    StepOnlyAges(st, e, shard, i);
    assert Step(st, e).replicas[shard][i].address == address;
    if e.Replicating? && e.shard in st.replicas {
      FanOutKeepsRoles(st, e.shard, |st.replicas[e.shard]|, e.cmd, e.refuse, e.now);
    }
  }

  /** A replica read as a secondary becomes the named primary only by a promotion of that replica. */
  lemma {:induction false} NamedOnlyByPromotion(st: State, events: seq<Event>, shard: int, address: string)
    requires Registered(st, shard, address) && !Names(st, shard, address) && NeverPromoted(events, shard, address)
    ensures Registered(RunFrom(st, events), shard, address) && !Names(RunFrom(st, events), shard, address)
  {
    if events != [] {
      NamedOnlyByPromotion(st, events[..|events| - 1], shard, address);
      StepNamesOnlyPromoted(RunFrom(st, events[..|events| - 1]), events[|events| - 1], shard, address);
    }
  }

  /**
   * A replica is read as a secondary, anything but its own promotion happens, and the late mark comes: every
   * primary that was active before the mark stays active.
   */
  lemma LateMarkWithoutPromotion(st: State, events: seq<Event>, shard: int, k: nat)
    requires PrimariesSound(st) && PrimariesSound(RunFrom(st, events))
    requires shard in st.replicas && k < |st.replicas[shard]| && st.replicas[shard][k].role == Secondary
    requires NeverPromoted(events, shard, st.replicas[shard][k].address)
    ensures PrimariesSound(Mark(RunFrom(st, events), shard, st.replicas[shard][k].address))
  {
    assert PrimaryAgrees(st, shard);
    NamedOnlyByPromotion(st, events, shard, st.replicas[shard][k].address);
    MarkKeepsPrimaries(RunFrom(st, events), shard, st.replicas[shard][k].address);
  }

  const FOLLOWER := Replica("a", Secondary, Active, 0)

  /** Shard 0 has one secondary. */
  function OneFollower(): seq<Event> {
    [] + [Registration(FOLLOWER)]
  }

  /**
   * A run in which the mark comes too late. The secondary is read by a lag check at time 100 with limits 10
   * and 20, or by the fan-out of a write that it will refuse; then it is promoted; then it is marked, and
   * the shard is left with a failed primary.
   */
  lemma MarkAfterPromotionFailsThePrimary()
    ensures var read := Run(OneFollower());
      && PrimariesSound(read) && read.replicas == map[0 := [FOLLOWER]] && read.stores == map["a" := EMPTY_DB]
      && ChosenByLag(FOLLOWER, 100, Limits(10, 20)) && ChosenByFanOut(FOLLOWER)
    ensures PrimariesSound(Run(OneFollower() + [Promoting(0, "a")]))
    ensures var marked := Run(OneFollower() + [Promoting(0, "a")] + [Marking(0, "a")]);
      && marked.primary == map[0 := "a"]
      && marked.replicas == map[0 := [Replica("a", Primary, Failed, 0)]]
      && PrimariesAgree(marked) && !PrimariesActive(marked)
  {
    var events := OneFollower() + [Promoting(0, "a")];
    OneRegistered(FOLLOWER);
    var read := Run(OneFollower());
    AloneAgrees(read, FOLLOWER);
    PromotedAlone(read, FOLLOWER);
    RunMore(OneFollower(), Promoting(0, "a"));
    var promoted := Run(events);
    AloneAgrees(promoted, FOLLOWER.(role := Primary));
    RunMore(events, Marking(0, "a"));
    MarkedAlone(promoted, FOLLOWER.(role := Primary));
  }

  lemma MarkedAlone(st: State, r: Replica)
    requires st.replicas == map[0 := [r]] && st.primary == map[0 := r.address] && r.role == Primary
    ensures var after := Mark(st, 0, r.address);
      && after.replicas == map[0 := [r.(status := Failed)]] && after.primary == st.primary
      && PrimariesAgree(after) && !PrimariesActive(after)
  {
    var after := Mark(st, 0, r.address);
    assert [r][0] == r && after.replicas[0] == [r.(status := Failed)];
    AloneAgrees(after, r.(status := Failed));
    assert after.replicas[0][0].role == Primary && after.replicas[0][0].status == Failed;
  }
}
