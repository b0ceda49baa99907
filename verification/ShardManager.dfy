/** Shard layout, routing and health (internal/shard/manager.go). */
module ShardManager {
  import opened Common
  import opened Store
  import opened Adapter
  import opened ConsistentHash

  // ----- The second hash: a polynomial over the key, wrapped to 32 bits at every step -----

  /** The same polynomial without any wrap-around; a character stands for a byte of the Go string. */
  function Polynomial(key: string): nat {
    if key == "" then 0 else Polynomial(key[..|key| - 1]) * 31 + key[|key| - 1] as nat
  }

  lemma WrapEarlyOrLate(p: nat, b: nat)
    ensures ((p % RING_SIZE) * 31 + b) % RING_SIZE == (p * 31 + b) % RING_SIZE
  {
    var q := p / RING_SIZE;
    assert p * 31 + b == (p % RING_SIZE) * 31 + b + RING_SIZE * (31 * q);
  }

  function PowerOf31(e: nat): nat {
    if e == 0 then 1 else 31 * PowerOf31(e - 1)
  }

  /** The first n characters of the key, each weighted by the power of 31 of its distance from the end. */
  function WeightedSum(key: string, n: nat): nat
    requires n <= |key|
  {
    if n == 0 then 0 else WeightedSum(key, n - 1) + key[n - 1] as nat * PowerOf31(|key| - n)
  }

  lemma TimesPower(c: nat, e: nat)
    ensures c * PowerOf31(e + 1) == 31 * (c * PowerOf31(e))
  {
  }

  /** One more character at the end raises every weight by one power. */
  lemma {:induction false} WeightsRise(key: string, c: char, n: nat)
    requires n <= |key|
    ensures WeightedSum(key + [c], n) == 31 * WeightedSum(key, n)
  {
    if n > 0 {
      WeightsRise(key, c, n - 1);
      TimesPower(key[n - 1] as nat, |key| - n);
    }
  }

  /** Horner's scheme computes the weighted sum. */
  lemma {:induction false} PolynomialIsSum(key: string)
    ensures Polynomial(key) == WeightedSum(key, |key|)
  {
    if key != "" {
      var n := |key| - 1;
      PolynomialIsSum(key[..n]);
      WeightsRise(key[..n], key[n], n);
      assert key == key[..n] + [key[n]];
      assert key[n] as nat * PowerOf31(0) == key[n] as nat;
    }
  }

  method Crc32Hash(key: string) returns (h: Uint32)
    ensures h == Polynomial(key) % RING_SIZE
  {
    h := 0;
    for i := 0 to |key|
      invariant h == Polynomial(key[..i]) % RING_SIZE
    {
      assert key[..i + 1][..i] == key[..i];
      WrapEarlyOrLate(Polynomial(key[..i]), key[i] as nat);
      h := (h * 31 + key[i] as int) % RING_SIZE;
    }
    assert key[..|key|] == key;
  }

  // ----- Layout: placed[i] is the address of shard i -----

  /** The shard lists of the nodes. */
  function Assigned(placed: seq<string>): map<string, seq<int>> {
    if placed == [] then map[]
    else
      var n := |placed| - 1;
      var before, a := Assigned(placed[..n]), placed[n];
      before[a := (if a in before then before[a] else []) + [n]]
  }

  function Adds(placed: seq<string>): seq<RingOp> {
    seq(|placed|, i requires 0 <= i < |placed| => AddOp(placed[i]))
  }

  /** Every shard number appears in exactly the list of its own address. */
  ghost predicate Partitions(lists: map<string, seq<int>>, placed: seq<string>) {
    && (forall a :: a in lists ==> lists[a] != [])
    && (forall a, p :: a in lists && 0 <= p < |lists[a]| ==>
          0 <= lists[a][p] < |placed| && placed[lists[a][p]] == a)
    && (forall i :: 0 <= i < |placed| ==> placed[i] in lists && i in lists[placed[i]])
  }

  lemma {:induction false} AssignedPartitions(placed: seq<string>)
    ensures Partitions(Assigned(placed), placed)
  {
    if placed != [] {
      AssignedPartitions(placed[..|placed| - 1]);
    }
  }

  /** The lists are strictly increasing, so no shard is listed twice. */
  lemma {:induction false} AssignedIncreasing(placed: seq<string>, a: string)
    requires a in Assigned(placed)
    ensures var list := Assigned(placed)[a]; forall p, q :: 0 <= p < q < |list| ==> list[p] < list[q]
  {
    var init := placed[..|placed| - 1];
    if a in Assigned(init) {
      AssignedIncreasing(init, a);
      AssignedPartitions(init);
    }
  }

  /** The round-robin placement of the constructor. */
  function Placement(addresses: seq<string>, n: nat): (placed: seq<string>)
    requires n > 0 ==> addresses != []
    ensures |placed| == n
  {
    seq(n, i requires 0 <= i < n => addresses[i % |addresses|])
  }

  /** The first shards are dealt out in the order of the addresses. */
  lemma PlacementStarts(addresses: seq<string>, n: nat, i: nat)
    requires i < n && i < |addresses|
    ensures Placement(addresses, n)[i] == addresses[i]
  {
    SmallQuotient(i, |addresses|);
  }

  /** After one round of the addresses the same order begins again. */
  lemma PlacementRepeats(addresses: seq<string>, n: nat, i: nat)
    requires i + |addresses| < n && addresses != []
    ensures Placement(addresses, n)[i + |addresses|] == Placement(addresses, n)[i]
  {
    NextRound(i, |addresses|);
  }

  lemma NextRound(i: nat, m: nat)
    requires m > 0
    ensures (i + m) / m == i / m + 1 && (i + m) % m == i % m
  {
    assert i + m == m * (i / m + 1) + i % m by {
      assert i == m * (i / m) + i % m;
    }
    QuotientIs(i + m, m, i / m + 1, i % m);
  }

  /** How many of the first n shards a round-robin over m nodes gives to node j. */
  function Load(n: nat, m: nat, j: nat): nat
    requires m > 0
  {
    n / m + if j < n % m then 1 else 0
  }

  lemma NextLoad(n: nat, m: nat, j: nat)
    requires j < m
    ensures Load(n + 1, m, j) == Load(n, m, j) + if n % m == j then 1 else 0
    ensures Load(n, m, j) == 0 <==> n <= j
  {
    NextQuotient(n, m);
    if n < m {
      SmallQuotient(n, m);
    } else {
      QuotientPositive(n, m);
    }
  }

  lemma QuotientPositive(n: nat, m: nat)
    requires 0 < m <= n
    ensures n / m > 0
  {
  }

  lemma NextAssigned(placed: seq<string>, b: string, a: string)
    ensures var before, after := Assigned(placed), Assigned(placed + [b]);
      && (a in after <==> a in before || a == b)
      && (a in after ==> |after[a]| == (if a in before then |before[a]| else 0) + if a == b then 1 else 0)
  {
    assert (placed + [b])[..|placed + [b]| - 1] == placed;
  }

  /** With distinct addresses, node j holds every m-th shard: the loads of used nodes differ by at most one. */
  lemma {:induction false} PlacementBalanced(addresses: seq<string>, n: nat, j: nat)
    requires NoDuplicates(addresses) && j < |addresses|
    ensures var lists, m, a := Assigned(Placement(addresses, n)), |addresses|, addresses[j];
      && (a in lists <==> j < n)
      && (a in lists ==> |lists[a]| == n / m + if j < n % m then 1 else 0)
  {
    var m := |addresses|;
    if n > 0 {
      PlacementBalanced(addresses, n - 1, j);
      assert Placement(addresses, n) == Placement(addresses, n - 1) + [addresses[(n - 1) % m]];
      NextAssigned(Placement(addresses, n - 1), addresses[(n - 1) % m], addresses[j]);
      NextLoad(n - 1, m, j);
      NextLoad(n, m, j);
    }
  }

  /** The shard that node j of m gets in round p. */
  function Dealt(j: nat, p: nat, m: nat): nat {
    j + p * m
  }

  lemma DealtLast(n: nat, m: nat)
    requires m > 0
    ensures n == Dealt(n % m, n / m, m)
  {
  }

  /** Dealing out one more shard. */
  lemma DealtNext(list: seq<int>, j: nat, n: nat, m: nat)
    requires m > 0 && j == n % m && |list| == n / m
    requires forall p :: 0 <= p < |list| ==> list[p] == Dealt(j, p, m)
    ensures forall p :: 0 <= p < |list + [n]| ==> (list + [n])[p] == Dealt(j, p, m)
  {
    DealtLast(n, m);
  }

  /** With distinct addresses, the shards of node j are j, j + m, j + 2m, and so on. */
  lemma {:induction false} AssignedProgression(addresses: seq<string>, n: nat, j: nat)
    requires NoDuplicates(addresses) && j < |addresses|
    ensures var lists, a := Assigned(Placement(addresses, n)), addresses[j];
      a in lists ==> forall p :: 0 <= p < |lists[a]| ==> lists[a][p] == Dealt(j, p, |addresses|)
  {
    if n > 0 {
      AssignedProgression(addresses, n - 1, j);
      PlacementBalanced(addresses, n - 1, j);
      DealOne(addresses, n - 1, j);
    }
  }

  lemma DealOne(addresses: seq<string>, n: nat, j: nat)
    requires NoDuplicates(addresses) && j < |addresses|
    requires var lists, m, a := Assigned(Placement(addresses, n)), |addresses|, addresses[j];
      && (a in lists <==> j < n)
      && (a in lists ==> |lists[a]| == n / m + if j < n % m then 1 else 0)
      && (a in lists ==> forall p :: 0 <= p < |lists[a]| ==> lists[a][p] == Dealt(j, p, m))
    ensures var lists, a := Assigned(Placement(addresses, n + 1)), addresses[j];
      a in lists ==> forall p :: 0 <= p < |lists[a]| ==> lists[a][p] == Dealt(j, p, |addresses|)
  {
    var m, a, before := |addresses|, addresses[j], Placement(addresses, n);
    var last := addresses[n % m];
    assert Placement(addresses, n + 1) == before + [last];
    assert (before + [last])[..n] == before;
    if n % m == j {
      var list := if a in Assigned(before) then Assigned(before)[a] else [];
      if n <= j {
        SmallQuotient(n, m);
      }
      DealtNext(list, j, n, m);
    } else {
      assert last != a;
    }
  }

  lemma NextQuotient(n: nat, m: nat)
    requires m > 0
    ensures (n + 1) / m == n / m + if n % m == m - 1 then 1 else 0
    ensures (n + 1) % m == if n % m == m - 1 then 0 else n % m + 1
  {
    var q, r := n / m, n % m;
    assert n == m * q + r;
    if r == m - 1 {
      assert n + 1 == m * (q + 1) + 0;
      QuotientIs(n + 1, m, q + 1, 0);
    } else {
      QuotientIs(n + 1, m, q, r + 1);
    }
  }

  lemma QuotientIs(n: nat, m: nat, q: nat, r: nat)
    requires m > 0 && r < m && n == m * q + r
    ensures n / m == q && n % m == r
  {
    var d := n / m - q;
    assert m * d == r - n % m;
    assert d >= 1 ==> m * d >= m;
    assert d <= -1 ==> m * d <= m * -1;
  }

  lemma SmallQuotient(n: nat, m: nat)
    requires n < m
    ensures n / m == 0 && n % m == n
  {
  }

  // ----- Routing -----

  /** What routing and adapter lookup depend on. */
  datatype Layout = Layout(ring: Ring, lists: map<string, seq<int>>)

  function PickIndex(key: string, n: nat): (i: nat)
    requires n > 0
    ensures i < n
  {
    Polynomial(key) % RING_SIZE % n
  }

  ghost function RouteOf(layout: Layout, hash: Hash, key: string): Option<int> {
    match Owner(layout.ring.nodes, hash(key))
    case None => None
    case Some(node) =>
      if node !in layout.lists || layout.lists[node] == [] then None
      else Some(layout.lists[node][PickIndex(key, |layout.lists[node]|)])
  }

  ghost function InitialLayout(placed: seq<string>, hash: Hash, virtualNodes: nat): Layout {
    Layout(RunRing(hash, virtualNodes, Adds(placed)), Assigned(placed))
  }

  lemma {:induction false} LiveAfterAdds(placed: seq<string>)
    ensures Live(Adds(placed)) == ElementsOf(placed)
  {
    if placed != [] {
      var n := |placed| - 1;
      LiveAfterAdds(placed[..n]);
      assert Adds(placed)[..n] == Adds(placed[..n]);
      assert placed == placed[..n] + [placed[n]];
    }
  }

  lemma AddedRingNotEmpty(placed: seq<string>, hash: Hash, virtualNodes: nat)
    requires placed != [] && virtualNodes > 0
    ensures RunRing(hash, virtualNodes, Adds(placed)).nodes != map[]
  {
    var n := |placed| - 1;
    var before := RunRing(hash, virtualNodes, Adds(placed)[..n]);
    var points := PointList(hash, placed[n], virtualNodes);
    assert Adds(placed)[n] == AddOp(placed[n]);
    assert points[0] in points;
    assert points[0] in Add(before, hash, placed[n], virtualNodes).nodes;
  }

  /** The owner of any hash is the address of some shard. */
  lemma OwnerIsPlaced(placed: seq<string>, hash: Hash, virtualNodes: nat, h: Uint32) returns (i: nat)
    requires placed != [] && virtualNodes > 0
    ensures i < |placed|
    ensures Owner(RunRing(hash, virtualNodes, Adds(placed)).nodes, h) == Some(placed[i])
  {
    var nodes := RunRing(hash, virtualNodes, Adds(placed)).nodes;
    RingInvariant(hash, virtualNodes, Adds(placed));
    AddedRingNotEmpty(placed, hash, virtualNodes);
    LiveAfterAdds(placed);
    var some :| some in nodes;
    var p := SuccessorExists(nodes.Keys, h);
    OwnerIs(nodes, h, p);
    assert nodes[p] in nodes.Values;
    i :| 0 <= i < |placed| && placed[i] == nodes[p];
  }

  /** Every key reaches a valid shard, and that shard is placed on the node that owns the key. */
  lemma RoutingIsTotal(placed: seq<string>, hash: Hash, virtualNodes: nat, key: string)
    requires placed != [] && virtualNodes > 0
    ensures var layout := InitialLayout(placed, hash, virtualNodes);
      var shard := RouteOf(layout, hash, key);
      && shard.Some? && 0 <= shard.value < |placed|
      && Owner(layout.ring.nodes, hash(key)) == Some(placed[shard.value])
  {
    var i := OwnerIsPlaced(placed, hash, virtualNodes, hash(key));
    AssignedPartitions(placed);
  }

  // ----- Which shard of its owner a key goes to -----

  /**
   * On any layout: among the n shards of its owner, a key goes to the one at the position that the sum of
   * its characters, weighted by powers of 31, leaves modulo 2^32 and then modulo n.
   */
  lemma RoutePicks(layout: Layout, hash: Hash, key: string, node: string)
    requires Owner(layout.ring.nodes, hash(key)) == Some(node) && node in layout.lists && layout.lists[node] != []
    ensures var list := layout.lists[node];
      RouteOf(layout, hash, key) == Some(list[WeightedSum(key, |key|) % 0x1_0000_0000 % |list|])
  {
    PolynomialIsSum(key);
  }

  /** In a list without repetitions it goes to position j only for that remainder. */
  lemma RoutePicksExactly(layout: Layout, hash: Hash, key: string, node: string, j: nat)
    requires Owner(layout.ring.nodes, hash(key)) == Some(node) && node in layout.lists
    requires j < |layout.lists[node]| && NoDuplicates(layout.lists[node])
    ensures var list := layout.lists[node];
      RouteOf(layout, hash, key) == Some(list[j]) <==> WeightedSum(key, |key|) % 0x1_0000_0000 % |list| == j
  {
    RoutePicks(layout, hash, key, node);
  }

  /** A key of one byte. */
  lemma OneByteKey(c: char)
    requires c as int < 0x100
    ensures WeightedSum([c], 1) == c as int && WeightedSum([c], 1) % 0x1_0000_0000 == c as int
  {
    assert WeightedSum([c], 1) == WeightedSum([c], 0) + c as nat * PowerOf31(0);
  }

  lemma OneByteRoute(layout: Layout, hash: Hash, c: char, node: string)
    requires c as int < 0x100 && Owner(layout.ring.nodes, hash([c])) == Some(node)
    requires node in layout.lists && layout.lists[node] != []
    ensures var list := layout.lists[node]; RouteOf(layout, hash, [c]) == Some(list[c as int % |list|])
  {
    RoutePicks(layout, hash, [c], node);
    OneByteKey(c);
  }

  lemma PickDealt(list: seq<int>, j: nat, m: nat, w: nat)
    requires list != [] && forall p :: 0 <= p < |list| ==> list[p] == Dealt(j, p, m)
    ensures list[w % |list|] == Dealt(j, w % |list|, m)
  {
  }

  /** The list of node j: its length, and its entries in order. */
  lemma DealtList(addresses: seq<string>, n: nat, j: nat)
    requires NoDuplicates(addresses) && j < |addresses| && j < n
    ensures var lists, a := Assigned(Placement(addresses, n)), addresses[j];
      && a in lists && |lists[a]| == Load(n, |addresses|, j) > 0
      && forall p :: 0 <= p < |lists[a]| ==> lists[a][p] == Dealt(j, p, |addresses|)
  {
    PlacementBalanced(addresses, n, j);
    NextLoad(n, |addresses|, j);
    AssignedProgression(addresses, n, j);
  }

  /**
   * Routing in closed form: with the shards placed over m distinct addresses, and whatever the ring, a key
   * whose hash belongs to address j goes to the shard j + p * m, where p is the key's weighted sum modulo
   * 2^32 and then modulo the number of shards that the address has.
   */
  lemma RoutingInClosedForm(layout: Layout, addresses: seq<string>, n: nat, hash: Hash, key: string, j: nat)
    requires NoDuplicates(addresses) && j < |addresses| && j < n
    requires layout.lists == Assigned(Placement(addresses, n))
    requires Owner(layout.ring.nodes, hash(key)) == Some(addresses[j])
    ensures Load(n, |addresses|, j) > 0 && RouteOf(layout, hash, key) ==
      Some(Dealt(j, WeightedSum(key, |key|) % 0x1_0000_0000 % Load(n, |addresses|, j), |addresses|))
  {
    DealtList(addresses, n, j);
    RoutePicks(layout, hash, key, addresses[j]);
    PickDealt(layout.lists[addresses[j]], j, |addresses|, WeightedSum(key, |key|) % 0x1_0000_0000);
  }

  /** With one address and at most 256 shards, the keys of one byte reach every shard. */
  lemma EveryShardIsReached(address: string, n: nat, hash: Hash, virtualNodes: nat, s: nat)
    requires s < n <= 256 && virtualNodes > 0
    ensures RouteOf(InitialLayout(Placement([address], n), hash, virtualNodes), hash, [s as char]) == Some(s)
  {
    var placed, key := Placement([address], n), [s as char];
    var i := OwnerIsPlaced(placed, hash, virtualNodes, hash(key));
    assert placed[i] == address;
    RoutingInClosedForm(InitialLayout(placed, hash, virtualNodes), [address], n, hash, key, 0);
    OneByteKey(s as char);
    SmallQuotient(s, n);
  }

  // ----- Health -----

  datatype Status = Active | Error | NoAdapter | Unhealthy

  datatype Shards = Shards(layout: Layout, status: map<int, Status>, connected: set<int>)

  /** One health check; answers are the shards whose count query succeeds. */
  function CheckHealth(s: Shards, answers: set<int>): Shards {
    s.(status := map i | i in s.status ::
      if i !in s.connected then NoAdapter else if i in answers then Active else Unhealthy)
  }

  function RunHealth(s: Shards, checks: seq<set<int>>): Shards {
    if checks == [] then s else CheckHealth(RunHealth(s, checks[..|checks| - 1]), checks[|checks| - 1])
  }

  /** The shards GetShardAdapter accepts. */
  function Usable(s: Shards): set<int> {
    set i | i in s.status && s.status[i] == Active && i in s.connected
  }

  /** After a check the usable shards are the connected ones that answered. */
  lemma CheckedShardsUsable(s: Shards, answers: set<int>)
    requires s.connected <= s.status.Keys
    ensures Usable(CheckHealth(s, answers)) == s.connected * answers
  {
  }

  /** The latest check alone decides every status: earlier checks and statuses leave no trace. */
  lemma {:induction false} LatestCheckDecides(s: Shards, checks: seq<set<int>>, i: int)
    requires checks != [] && i in s.status
    ensures var after := RunHealth(s, checks).status;
      && i in after
      && (after[i] == Active <==> i in s.connected && i in checks[|checks| - 1])
      && (after[i] == Unhealthy <==> i in s.connected && i !in checks[|checks| - 1])
      && (after[i] == NoAdapter <==> i !in s.connected)
    ensures RunHealth(s, checks).connected == s.connected
  {
    var init := checks[..|checks| - 1];
    if init != [] {
      LatestCheckDecides(s, init, i);
    }
  }

  ghost predicate ActiveHaveAdapters(s: Shards) {
    s.connected <= s.status.Keys && forall i :: i in s.status && s.status[i] == Active ==> i in s.connected
  }

  /** No run of health checks changes where any key goes, and active shards always have an adapter. */
  lemma {:induction false} HealthNeverReroutes(s: Shards, hash: Hash, checks: seq<set<int>>, key: string)
    requires ActiveHaveAdapters(s)
    ensures var after := RunHealth(s, checks);
      && RouteOf(after.layout, hash, key) == RouteOf(s.layout, hash, key)
      && ActiveHaveAdapters(after)
      && (forall i :: i in after.status && after.status[i] == Active ==> i in Usable(after))
      && after.connected == s.connected && after.status.Keys == s.status.Keys
  {
    if checks != [] {
      HealthNeverReroutes(s, hash, checks[..|checks| - 1], key);
    }
  }

  // ----- The manager object -----

  datatype ShardInfo = ShardInfo(id: int, node: string, status: Status)

  function Rechecked(info: ShardInfo, connected: bool, answers: bool): ShardInfo {
    info.(status := if !connected then NoAdapter else if answers then Active else Unhealthy)
  }

  /** The state a new manager starts from. */
  ghost function InitialShards(placed: seq<string>, hash: Hash, virtualNodes: nat, connects: set<int>): Shards {
    Shards(InitialLayout(placed, hash, virtualNodes),
           map i | 0 <= i < |placed| :: if i in connects then Active else Error,
           set i | 0 <= i < |placed| && i in connects)
  }

  /** A shard that could not be reached starts in error, loses that status to the first check, and is never active. */
  lemma UnreachableShard(placed: seq<string>, hash: Hash, virtualNodes: nat, connects: set<int>, checks: seq<set<int>>,
                         i: nat)
    requires i < |placed|
    ensures var s := InitialShards(placed, hash, virtualNodes, connects);
      var after := RunHealth(s, checks).status;
      && s.status[i] == (if i in connects then Active else Error)
      && i in after && (i !in connects ==> after[i] == if checks == [] then Error else NoAdapter)
  {
    if checks != [] {
      LatestCheckDecides(InitialShards(placed, hash, virtualNodes, connects), checks, i);
    }
  }

  class Manager {
    const ring: HashRing
    var shards: map<int, ShardInfo>
    var nodeToShards: map<string, seq<int>>
    var shardToAdapter: map<int, RedisAdapter>

    ghost predicate Valid()
      reads this, ring
    {
      ring.Valid() && ValidRecords()
    }

    /** Records and connections carry their shard number; an active shard has a connection. */
    ghost predicate ValidRecords()
      reads `shards, `shardToAdapter
    {
      && shardToAdapter.Keys <= shards.Keys
      && (forall i :: i in shards ==> shards[i].id == i && (shards[i].status == Active ==> i in shardToAdapter))
      && (forall i :: i in shardToAdapter ==> shardToAdapter[i].database == i)
    }

    ghost function State(): Shards
      reads this, ring
    {
      Shards(LayoutNow(), map i | i in shards :: shards[i].status, shardToAdapter.Keys)
    }

    ghost function LayoutNow(): Layout
      reads ring, `nodeToShards
    {
      Layout(ring.State(), nodeToShards)
    }

    /** The shards GetShardAdapter accepts, read off the records. */
    ghost function ActiveShards(): set<int>
      reads `shards, `shardToAdapter
    {
      set i | i in shards && shards[i].status == Active && i in shardToAdapter
    }

    lemma ActiveShardsUsable()
      ensures ActiveShards() == Usable(State())
    {
    }

    /** Over fresh databases, the usable shards are exactly the connected ones. */
    lemma FreshShards(n: nat, connects: set<int>)
      requires Connected(n, connects)
      ensures Dbs().Keys == ActiveShards() == set i | 0 <= i < n && i in connects
      ensures forall i :: i in Dbs() ==> Dbs()[i] == EMPTY_DB
    {
      var reached := set i | 0 <= i < n && i in connects;
      forall i ensures i in Dbs() <==> i in reached {
      }
      forall i ensures i in ActiveShards() <==> i in reached {
      }
    }

    /** The databases behind the shards. */
    function Dbs(): map<int, Db>
      reads `shardToAdapter, shardToAdapter.Values
    {
      map i | i in shardToAdapter :: shardToAdapter[i].State()
    }

    lemma DbsAre(dbs: map<int, Db>)
      requires dbs.Keys == shardToAdapter.Keys
      requires forall i :: i in shardToAdapter ==> shardToAdapter[i].State() == dbs[i]
      ensures Dbs() == dbs
    {
      assert Dbs().Keys == dbs.Keys;
      forall i | i in dbs ensures Dbs()[i] == dbs[i] {
      }
    }

    /** Places the shards round-robin; connects are the shards whose connection attempt succeeds. */
    constructor (shardCount: nat, virtualNodes: nat, addresses: seq<string>, hash: Hash, connects: set<int>)
      requires shardCount > 0 ==> addresses != []
      ensures Valid() && fresh(ring) && fresh(shardToAdapter.Values)
      ensures ring.hash == hash && ring.virtualNodes == virtualNodes
      ensures LaidOut(Placement(addresses, shardCount)) && Connected(shardCount, connects)
    {
      ring := new HashRing(hash, virtualNodes);
      shards, nodeToShards, shardToAdapter := map[], map[], map[];
      new;
      PlaceShards(Placement(addresses, shardCount), connects);
    }

    method PlaceShards(placed: seq<string>, connects: set<int>)
      requires ring.Valid() && LaidOut([]) && Connected(0, connects)
      modifies this, ring
      ensures Valid() && LaidOut(placed) && Connected(|placed|, connects)
      ensures fresh(shardToAdapter.Values - old(shardToAdapter.Values))
    {
      for i := 0 to |placed|
        invariant ring.Valid() && LaidOut(placed[..i]) && Connected(i, connects)
        invariant fresh(shardToAdapter.Values - old(shardToAdapter.Values))
      {
        PlaceOne(placed, i, connects);
      }
      assert placed[..|placed|] == placed;
    }

    /** One turn of the loop over the shards. */
    method PlaceOne(placed: seq<string>, i: nat, connects: set<int>)
      requires i < |placed| && ring.Valid() && LaidOut(placed[..i]) && Connected(i, connects)
      modifies this, ring
      ensures ring.Valid() && LaidOut(placed[..i + 1]) && Connected(i + 1, connects)
      ensures fresh(shardToAdapter.Values - old(shardToAdapter.Values))
    {
      Assign(placed, i);
      Connect(i, placed[i], connects);
    }

    /** Ring and shard lists hold the given placement. */
    ghost predicate LaidOut(placed: seq<string>)
      reads `nodeToShards, ring
    {
      && ring.State() == RunRing(ring.hash, ring.virtualNodes, Adds(placed))
      && nodeToShards == Assigned(placed)
    }

    /** The ring and list part of placing shard i. */
    method Assign(placed: seq<string>, i: nat)
      requires i < |placed| && ring.Valid() && LaidOut(placed[..i])
      modifies ring, `nodeToShards
      ensures ring.Valid() && LaidOut(placed[..i + 1])
    {
      assert placed[..i + 1][..i] == placed[..i];
      assert Adds(placed[..i + 1])[..i] == Adds(placed[..i]);
      var nodeAddr := placed[i];
      ring.AddNode(nodeAddr);
      if nodeAddr !in nodeToShards {
        nodeToShards := nodeToShards[nodeAddr := []];
      }
      nodeToShards := nodeToShards[nodeAddr := nodeToShards[nodeAddr] + [i]];
    }

    /** The first n shards have records, and those that could connect have an empty database. */
    ghost predicate Connected(n: nat, connects: set<int>)
      reads `shards, `shardToAdapter, shardToAdapter.Values
    {
      && ValidRecords()
      && (forall k :: 0 <= k < n ==> k in shards)
      && (forall k :: k in shards ==> 0 <= k < n && shards[k].status == if k in connects then Active else Error)
      && (forall k :: k in shardToAdapter ==> k in connects && shardToAdapter[k].State() == EMPTY_DB)
      && (forall k :: k in shards && k in connects ==> k in shardToAdapter)
    }

    /** The record and connection part. */
    method Connect(i: nat, nodeAddr: string, connects: set<int>)
      requires Connected(i, connects)
      modifies `shards, `shardToAdapter
      ensures Connected(i + 1, connects)
      ensures fresh(shardToAdapter.Values - old(shardToAdapter.Values))
    {
      var shard := ShardInfo(i, nodeAddr, Active);
      if i !in connects {
        shard := shard.(status := Error);
      } else {
        var adapter := new RedisAdapter(nodeAddr, i);
        shardToAdapter := shardToAdapter[i := adapter];
      }
      shards := shards[i := shard];
    }

    lemma InitialState(placed: seq<string>, connects: set<int>)
      requires Valid() && LaidOut(placed) && Connected(|placed|, connects)
      ensures State() == InitialShards(placed, ring.hash, ring.virtualNodes, connects)
      ensures ActiveHaveAdapters(State())
      ensures forall i :: i in Dbs() ==> Dbs()[i] == EMPTY_DB
    {
      var initial := InitialShards(placed, ring.hash, ring.virtualNodes, connects);
      assert State().status == initial.status;
      assert State().connected == initial.connected;
    }

    method GetShardForKey(key: string) returns (shard: Option<int>)
      requires Valid()
      ensures shard == RouteOf(LayoutNow(), ring.hash, key)
    {
      var node := ring.GetNode(key);
      if node.None? {
        return None;
      }
      if node.value !in nodeToShards || |nodeToShards[node.value]| == 0 {
        return None;
      }
      var list := nodeToShards[node.value];
      var hash := Crc32Hash(key);
      return Some(list[hash % |list|]);
    }

    method GetShardAdapter(shard: int) returns (adapter: Option<RedisAdapter>)
      requires Valid()
      ensures adapter.Some? <==> shard in ActiveShards()
      ensures adapter.Some? ==> shard in shardToAdapter && adapter.value == shardToAdapter[shard]
    {
      if shard !in shardToAdapter {
        return None;
      }
      if shard !in shards || shards[shard].status != Active {
        return None;
      }
      return Some(shardToAdapter[shard]);
    }

    method GetHealthyShards() returns (healthy: set<int>)
      requires Valid()
      ensures healthy == ActiveShards()
    {
      healthy := set i | i in shards && shards[i].status == Active;
      forall i ensures i in healthy <==> i in ActiveShards() {
        assert i in shards ==> (shards[i].status == Active ==> i in shardToAdapter);
      }
    }

    method GetAllShards() returns (all: set<int>)
      requires Valid()
      ensures all == shards.Keys
    {
      all := shards.Keys;
    }

    method PerformHealthCheck(answers: set<int>)
      requires Valid()
      modifies `shards
      ensures Valid() && State() == CheckHealth(old(State()), answers)
    {
      ghost var before := State();
      ghost var records := shards;
      var rest := shards.Keys;
      while rest != {}
        invariant rest <= shards.Keys == records.Keys
        invariant forall i :: i in records ==>
          (shards[i] == if i in rest then records[i] else Rechecked(records[i], i in shardToAdapter, i in answers))
        decreases |rest|
      {
        ghost var some := MemberOf(rest);
        var i :| i in rest;
        Recheck(i, i in answers);
        rest := rest - {i};
      }
      RecheckedState(before, records, answers);
    }

    lemma RecheckedState(before: Shards, records: map<int, ShardInfo>, answers: set<int>)
      requires before == Shards(LayoutNow(), map i | i in records :: records[i].status, shardToAdapter.Keys)
      requires shards.Keys == records.Keys && forall i :: i in records ==>
        shards[i] == Rechecked(records[i], i in shardToAdapter, i in answers)
      ensures State() == CheckHealth(before, answers)
    {
      var expected := CheckHealth(before, answers).status;
      forall i | i in expected ensures State().status[i] == expected[i] {
        assert shards[i] == Rechecked(records[i], i in shardToAdapter, i in answers);
      }
    }

    /** A health check, in terms of the shards that can be used afterwards. */
    method Check(answers: set<int>)
      requires Valid()
      modifies `shards
      ensures Valid() && ActiveShards() == shardToAdapter.Keys * answers
    {
      ghost var before := State();
      PerformHealthCheck(answers);
      ActiveShardsUsable();
      CheckedShardsUsable(before, answers);
    }

    method Recheck(i: int, answers: bool)
      requires i in shards
      modifies `shards
      ensures shards == old(shards)[i := Rechecked(old(shards)[i], i in shardToAdapter, answers)]
    {
      if i !in shardToAdapter {
        shards := shards[i := shards[i].(status := NoAdapter)];
      } else if !answers {
        shards := shards[i := shards[i].(status := Unhealthy)];
      } else {
        shards := shards[i := shards[i].(status := Active)];
      }
    }
  }
}
