/**
 * The consistent-hash ring of internal/shard/consistent_hash.go. Every result holds for any hash
 * function, so points may be duplicated (the same node added again) and may collide between nodes.
 */
module ConsistentHash {
  import opened Common

  const RING_SIZE := 0x1_0000_0000
  type Uint32 = n: int | 0 <= n < RING_SIZE
  type Hash = string -> Uint32

  datatype Ring = Ring(nodes: map<Uint32, string>, sortedKeys: seq<Uint32>)

  const EMPTY_RING := Ring(map[], [])

  // ----- Points of a node -----

  function Decimal(n: nat): string {
    var digit := "0123456789"[n % 10..n % 10 + 1];
    if n < 10 then digit else Decimal(n / 10) + digit
  }

  function PointAt(hash: Hash, node: string, i: nat): Uint32 {
    hash(node + "#" + Decimal(i))
  }

  function PointList(hash: Hash, node: string, count: nat): (points: seq<Uint32>)
    ensures |points| == count
  {
    seq(count, i requires 0 <= i < count => PointAt(hash, node, i))
  }

  ghost function Points(hash: Hash, node: string, count: nat): set<Uint32> {
    ElementsOf(PointList(hash, node, count))
  }

  // ----- Decimal numerals -----

  predicate IsDigit(c: char) {
    '0' <= c <= '9'
  }

  /** A number written in decimal digits without leading zeros. */
  predicate IsNumeral(d: string) {
    d != "" && (forall i :: 0 <= i < |d| ==> IsDigit(d[i])) && (|d| > 1 ==> d[0] != '0')
  }

  /** The number that a string of digits denotes. */
  function NumberOf(d: string): nat
    requires forall i :: 0 <= i < |d| ==> IsDigit(d[i])
  {
    if d == "" then 0
    else
      assert IsDigit(d[|d| - 1]);
      10 * NumberOf(d[..|d| - 1]) + (d[|d| - 1] as int - '0' as int)
  }

  lemma DigitOf(n: nat)
    ensures var digit := "0123456789"[n % 10..n % 10 + 1];
      |digit| == 1 && IsDigit(digit[0]) && digit[0] as int - '0' as int == n % 10
  {
  }

  lemma NumeralInit(d: string)
    requires |d| > 1 && IsNumeral(d)
    ensures IsNumeral(d[..|d| - 1]) && NumberOf(d[..|d| - 1]) > 0
  {
    var init := d[..|d| - 1];
    if |init| == 1 {
      assert NumberOf(init) == 10 * NumberOf(init[..0]) + (init[0] as int - '0' as int);
    } else {
      NumeralInit(init);
    }
  }

  /** Reading the text of a number gives the number. */
  lemma {:induction false} DecimalReads(n: nat)
    ensures IsNumeral(Decimal(n)) && NumberOf(Decimal(n)) == n
    ensures n > 0 ==> Decimal(n)[0] != '0'
  {
    DigitOf(n);
    var digit := "0123456789"[n % 10..n % 10 + 1];
    if n < 10 {
      assert digit[..0] == "";
    } else {
      DecimalReads(n / 10);
      assert Decimal(n)[..|Decimal(n)| - 1] == Decimal(n / 10);
    }
  }

  /** Each numeral is the text of the number it denotes. */
  lemma {:induction false} NumeralIsDecimal(d: string)
    requires IsNumeral(d)
    ensures Decimal(NumberOf(d)) == d
  {
    var init, n := d[..|d| - 1], NumberOf(d);
    DigitOf(n);
    var digit := "0123456789"[n % 10..n % 10 + 1];
    assert n % 10 == d[|d| - 1] as int - '0' as int && n / 10 == NumberOf(init);
    assert d == init + [d[|d| - 1]];
    if |d| > 1 {
      NumeralInit(d);
      NumeralIsDecimal(init);
    }
  }

  // ----- Sorted key lists -----

  ghost predicate Ascending(s: seq<Uint32>) {
    forall i, j :: 0 <= i < j < |s| ==> s[i] <= s[j]
  }

  function InsertAscending(x: Uint32, s: seq<Uint32>): seq<Uint32> {
    if s == [] || x <= s[0] then [x] + s else [s[0]] + InsertAscending(x, s[1..])
  }

  /** What sort.Slice makes of a key list: the ascending arrangement is unique. */
  function SortAscending(s: seq<Uint32>): seq<Uint32> {
    if s == [] then [] else InsertAscending(s[0], SortAscending(s[1..]))
  }

  function Filter(s: seq<Uint32>, keep: set<Uint32>): seq<Uint32> {
    if s == [] then []
    else Filter(s[..|s| - 1], keep) + if s[|s| - 1] in keep then [s[|s| - 1]] else []
  }

  lemma {:induction false} FilterElements(s: seq<Uint32>, keep: set<Uint32>, x: Uint32)
    ensures x in Filter(s, keep) <==> x in s && x in keep
  {
    if s != [] {
      assert s == s[..|s| - 1] + [s[|s| - 1]];
      FilterElements(s[..|s| - 1], keep, x);
    }
  }

  lemma {:induction false} InsertAscendingSorted(x: Uint32, s: seq<Uint32>)
    requires Ascending(s)
    ensures Ascending(InsertAscending(x, s))
    ensures var r := InsertAscending(x, s); r != [] && (r[0] == x || (s != [] && r[0] == s[0]))
  {
    if s == [] || x <= s[0] {
    } else {
      InsertAscendingSorted(x, s[1..]);
    }
  }

  lemma {:induction false} InsertAscendingAdds(x: Uint32, s: seq<Uint32>)
    ensures multiset(InsertAscending(x, s)) == multiset(s) + multiset{x}
  {
    if s == [] || x <= s[0] {
    } else {
      InsertAscendingAdds(x, s[1..]);
      assert s == [s[0]] + s[1..];
    }
  }

  lemma {:induction false} SortAscendingSorts(s: seq<Uint32>)
    ensures Ascending(SortAscending(s)) && multiset(SortAscending(s)) == multiset(s)
  {
    if s != [] {
      SortAscendingSorts(s[1..]);
      InsertAscendingSorted(s[0], SortAscending(s[1..]));
      InsertAscendingAdds(s[0], SortAscending(s[1..]));
      assert s == [s[0]] + s[1..];
    }
  }

  lemma SortAscendingElements(s: seq<Uint32>)
    ensures ElementsOf(SortAscending(s)) == ElementsOf(s)
  {
    SortAscendingSorts(s);
    forall x ensures x in SortAscending(s) <==> x in s {
      assert x in SortAscending(s) <==> x in multiset(SortAscending(s));
      assert x in s <==> x in multiset(s);
    }
  }

  lemma {:induction false} FilterSorted(s: seq<Uint32>, keep: set<Uint32>)
    requires Ascending(s)
    ensures Ascending(Filter(s, keep))
  {
    if s != [] {
      var init, last := s[..|s| - 1], s[|s| - 1];
      FilterSorted(init, keep);
      var kept := Filter(init, keep);
      forall i | 0 <= i < |kept| ensures kept[i] <= last {
        FilterElements(init, keep, kept[i]);
      }
    }
  }

  lemma {:induction false} FilterConcat(s: seq<Uint32>, t: seq<Uint32>, keep: set<Uint32>)
    ensures Filter(s + t, keep) == Filter(s, keep) + Filter(t, keep)
  {
    if t == [] {
      assert s + t == s;
    } else {
      assert (s + t)[..|s + t| - 1] == s + t[..|t| - 1];
      FilterConcat(s, t[..|t| - 1], keep);
    }
  }

  lemma {:induction false} FilterKeepsAll(s: seq<Uint32>, keep: set<Uint32>)
    requires ElementsOf(s) <= keep
    ensures Filter(s, keep) == s
  {
    if s != [] {
      var init := s[..|s| - 1];
      assert s == init + [s[|s| - 1]];
      FilterKeepsAll(init, keep);
    }
  }

  lemma {:induction false} FilterKeepsNone(s: seq<Uint32>, keep: set<Uint32>)
    requires ElementsOf(s) !! keep
    ensures Filter(s, keep) == []
  {
    if s != [] {
      var init := s[..|s| - 1];
      assert s == init + [s[|s| - 1]];
      FilterKeepsNone(init, keep);
    }
  }

  lemma FilterFirst(first: Uint32, s: seq<Uint32>, keep: set<Uint32>)
    ensures Filter([first] + s, keep) == (if first in keep then [first] else []) + Filter(s, keep)
  {
    FilterConcat([first], s, keep);
    assert [first][..0] == [];
    assert Filter([first][..0], keep) == [];
  }

  lemma InsertFurther(x: Uint32, first: Uint32, s: seq<Uint32>)
    requires x > first
    ensures InsertAscending(x, [first] + s) == [first] + InsertAscending(x, s)
  {
  }

  lemma {:induction false} InsertThenFilter(x: Uint32, s: seq<Uint32>, keep: set<Uint32>)
    requires Ascending(s)
    ensures Filter(InsertAscending(x, s), keep)
      == if x in keep then InsertAscending(x, Filter(s, keep)) else Filter(s, keep)
  {
    if s == [] || x <= s[0] {
      FilterFirst(x, s, keep);
      if Filter(s, keep) != [] {
        FilterElements(s, keep, Filter(s, keep)[0]);
      }
    } else {
      InsertThenFilter(x, s[1..], keep);
      FilterFirst(s[0], InsertAscending(x, s[1..]), keep);
      FilterFirst(s[0], s[1..], keep);
      assert s == [s[0]] + s[1..];
      if s[0] in keep {
        InsertFurther(x, s[0], Filter(s[1..], keep));
      } else {
        assert Filter(s, keep) == Filter(s[1..], keep);
        assert Filter(InsertAscending(x, s), keep) == Filter(InsertAscending(x, s[1..]), keep);
      }
    }
  }

  lemma {:induction false} SortThenFilter(s: seq<Uint32>, keep: set<Uint32>)
    ensures Filter(SortAscending(s), keep) == SortAscending(Filter(s, keep))
  {
    if s != [] {
      SortThenFilter(s[1..], keep);
      SortAscendingSorts(s[1..]);
      InsertThenFilter(s[0], SortAscending(s[1..]), keep);
      FilterFirst(s[0], s[1..], keep);
      assert s == [s[0]] + s[1..];
      if s[0] in keep {
        assert Filter(s, keep)[1..] == Filter(s[1..], keep);
      } else {
        assert Filter(s, keep) == Filter(s[1..], keep);
      }
    }
  }

  lemma {:induction false} SortAscendingIdle(s: seq<Uint32>)
    requires Ascending(s)
    ensures SortAscending(s) == s
  {
    if s != [] {
      SortAscendingIdle(s[1..]);
    }
  }

  // ----- The ring operations as functions -----

  function Claimed(points: seq<Uint32>, node: string): map<Uint32, string> {
    map p | p in points :: node
  }

  lemma ClaimNext(nodes: map<Uint32, string>, points: seq<Uint32>, i: nat, node: string)
    requires i < |points|
    ensures nodes + Claimed(points[..i + 1], node) == (nodes + Claimed(points[..i], node))[points[i] := node]
    ensures points[..i + 1] == points[..i] + [points[i]]
  {
  }

  function Add(ring: Ring, hash: Hash, node: string, count: nat): Ring {
    var points := PointList(hash, node, count);
    Ring(ring.nodes + Claimed(points, node), SortAscending(ring.sortedKeys + points))
  }

  /** The text of one of the node's first count points: its name, '#', and a number below count. */
  predicate IsPointText(node: string, count: nat, text: string) {
    |text| > |node| + 1 && text[..|node| + 1] == node + "#" &&
    var d := text[|node| + 1..];
    IsNumeral(d) && NumberOf(d) < count
  }

  /** The points of a node are the hashes of those texts. */
  lemma PointsAreHashes(hash: Hash, node: string, count: nat, p: Uint32)
    ensures p in PointList(hash, node, count) <==> exists text :: IsPointText(node, count, text) && p == hash(text)
  {
    if p in PointList(hash, node, count) {
      var i :| 0 <= i < count && PointList(hash, node, count)[i] == p;
      var text := node + "#" + Decimal(i);
      DecimalReads(i);
      assert text[|node| + 1..] == Decimal(i);
      assert IsPointText(node, count, text);
    }
    if text :| IsPointText(node, count, text) && p == hash(text) {
      var d := text[|node| + 1..];
      NumeralIsDecimal(d);
      assert text == node + "#" + d;
      assert PointList(hash, node, count)[NumberOf(d)] == p;
    }
  }

  /** Adding a node claims exactly the hashes of its texts; everything else is as before. */
  lemma AddClaimsHashes(ring: Ring, hash: Hash, node: string, count: nat, p: Uint32)
    ensures var after, hit := Add(ring, hash, node, count).nodes, exists text ::
        IsPointText(node, count, text) && p == hash(text);
      && (p in after <==> p in ring.nodes || hit)
      && (p in after ==> after[p] == if hit then node else ring.nodes[p])
  {
    PointsAreHashes(hash, node, count, p);
  }

  ghost predicate SeparatesPoints(hash: Hash, node: string, count: nat) {
    forall x, y :: IsPointText(node, count, x) && IsPointText(node, count, y) && hash(x) == hash(y) ==> x == y
  }

  lemma PointsDistinct(hash: Hash, node: string, count: nat)
    requires SeparatesPoints(hash, node, count)
    ensures NoDuplicates(PointList(hash, node, count))
  {
    forall i, j | 0 <= i < j < count
      ensures PointList(hash, node, count)[i] != PointList(hash, node, count)[j]
    {
      var x, y := node + "#" + Decimal(i), node + "#" + Decimal(j);
      DecimalReads(i);
      DecimalReads(j);
      assert x[|node| + 1..] == Decimal(i) && y[|node| + 1..] == Decimal(j);
      assert IsPointText(node, count, x) && IsPointText(node, count, y);
    }
  }

  /** A hash that keeps the node's texts apart gives a node on an empty ring exactly count points. */
  lemma NodeHasAllItsPoints(hash: Hash, node: string, count: nat)
    requires SeparatesPoints(hash, node, count)
    ensures |Add(EMPTY_RING, hash, node, count).nodes| == count
  {
    var points := PointList(hash, node, count);
    PointsDistinct(hash, node, count);
    NoDuplicatesSize(points);
    assert Add(EMPTY_RING, hash, node, count).nodes.Keys == ElementsOf(points);
  }

  function Remove(ring: Ring, hash: Hash, node: string, count: nat): Ring {
    var left := ring.nodes - ElementsOf(PointList(hash, node, count));
    Ring(left, Filter(ring.sortedKeys, left.Keys))
  }

  datatype RingOp = AddOp(node: string) | RemoveOp(node: string)

  function RunRing(hash: Hash, count: nat, ops: seq<RingOp>): Ring {
    if ops == [] then EMPTY_RING
    else
      var before := RunRing(hash, count, ops[..|ops| - 1]);
      match ops[|ops| - 1]
      case AddOp(node) => Add(before, hash, node, count)
      case RemoveOp(node) => Remove(before, hash, node, count)
  }

  /** The nodes added and not removed since. */
  function Live(ops: seq<RingOp>): set<string> {
    if ops == [] then {}
    else
      var before := Live(ops[..|ops| - 1]);
      match ops[|ops| - 1]
      case AddOp(node) => before + {node}
      case RemoveOp(node) => before - {node}
  }

  /** The sorted list holds exactly the points of the map. */
  ghost predicate Represents(ring: Ring) {
    Ascending(ring.sortedKeys) && ElementsOf(ring.sortedKeys) == ring.nodes.Keys
  }

  /** Every point belongs to the node it is mapped to. */
  ghost predicate OwnPoints(ring: Ring, hash: Hash, count: nat) {
    forall p :: p in ring.nodes ==> p in Points(hash, ring.nodes[p], count)
  }

  lemma AddRepresents(ring: Ring, hash: Hash, node: string, count: nat)
    requires Represents(ring)
    ensures Represents(Add(ring, hash, node, count))
  {
    SortAscendingSorts(ring.sortedKeys + PointList(hash, node, count));
    SortAscendingElements(ring.sortedKeys + PointList(hash, node, count));
  }

  lemma RemoveRepresents(ring: Ring, hash: Hash, node: string, count: nat)
    requires Represents(ring)
    ensures Represents(Remove(ring, hash, node, count))
  {
    var left := ring.nodes - ElementsOf(PointList(hash, node, count));
    FilterSorted(ring.sortedKeys, left.Keys);
    forall x ensures x in Filter(ring.sortedKeys, left.Keys) <==> x in left {
      FilterElements(ring.sortedKeys, left.Keys, x);
      assert x in ring.sortedKeys <==> x in ElementsOf(ring.sortedKeys);
    }
  }

  /** After any run of adds and removes the list matches the map, and only live nodes are on the ring. */
  lemma {:induction false} RingInvariant(hash: Hash, count: nat, ops: seq<RingOp>)
    ensures Represents(RunRing(hash, count, ops))
    ensures OwnPoints(RunRing(hash, count, ops), hash, count)
    ensures RunRing(hash, count, ops).nodes.Values <= Live(ops)
  {
    if ops != [] {
      RingInvariant(hash, count, ops[..|ops| - 1]);
      var before := RunRing(hash, count, ops[..|ops| - 1]);
      match ops[|ops| - 1]
      case AddOp(node) => AddRepresents(before, hash, node, count);
      case RemoveOp(node) => RemoveRepresents(before, hash, node, count);
    }
  }

  // ----- Ownership -----

  /** Clockwise distance from a hash to a point, around the ring. */
  function Clockwise(h: Uint32, p: Uint32): Uint32 {
    if p >= h then p - h else p - h + RING_SIZE
  }

  ghost predicate IsSuccessor(points: set<Uint32>, h: Uint32, p: Uint32) {
    p in points && forall q :: q in points ==> Clockwise(h, p) <= Clockwise(h, q)
  }

  lemma {:induction false} SuccessorExists(points: set<Uint32>, h: Uint32) returns (p: Uint32)
    requires points != {}
    ensures IsSuccessor(points, h, p)
  {
    p :| p in points;
    if points != {p} {
      var q := SuccessorExists(points - {p}, h);
      if Clockwise(h, q) < Clockwise(h, p) {
        p := q;
      }
    }
  }

  /** The node whose point comes first clockwise from h; None on an empty ring. */
  ghost function Owner(nodes: map<Uint32, string>, h: Uint32): Option<string> {
    if nodes == map[] then None
    else
      assert exists p :: IsSuccessor(nodes.Keys, h, p) by {
        var key :| key in nodes;
        var p := SuccessorExists(nodes.Keys, h);
      }
      var p :| IsSuccessor(nodes.Keys, h, p);
      Some(nodes[p])
  }

  lemma OwnerIs(nodes: map<Uint32, string>, h: Uint32, p: Uint32)
    requires IsSuccessor(nodes.Keys, h, p)
    ensures Owner(nodes, h) == Some(nodes[p])
  {
  }

  /** Clockwise-first is: the least point at or above h, or the least point of all when there is none. */
  lemma SuccessorWrapsAround(points: set<Uint32>, h: Uint32, p: Uint32)
    ensures IsSuccessor(points, h, p) <==>
      && p in points
      && if exists q :: q in points && q >= h
         then p >= h && forall q :: q in points && q >= h ==> p <= q
         else forall q :: q in points ==> p <= q
  {
    if q :| q in points && q >= h {
      if IsSuccessor(points, h, p) {
        assert Clockwise(h, p) <= Clockwise(h, q);
        forall r | r in points && r >= h ensures p <= r {
          assert Clockwise(h, p) <= Clockwise(h, r);
        }
      }
    } else if IsSuccessor(points, h, p) {
      forall r | r in points ensures p <= r {
        assert Clockwise(h, p) <= Clockwise(h, r);
      }
    }
  }

  /** Adding a node never moves a key between two other nodes, whatever the hash collides with. */
  lemma GrowthIsMonotone(ring: Ring, hash: Hash, node: string, count: nat, h: Uint32)
    ensures var after := Owner(Add(ring, hash, node, count).nodes, h);
      after == Owner(ring.nodes, h) || after == Some(node)
  {
    var after := Add(ring, hash, node, count).nodes;
    if after != map[] {
      var key :| key in after;
      var p := SuccessorExists(after.Keys, h);
      OwnerIs(after, h, p);
      if p !in PointList(hash, node, count) {
        assert IsSuccessor(ring.nodes.Keys, h, p);
        OwnerIs(ring.nodes, h, p);
      }
    }
  }

  /** A point of the node that another node holds. */
  ghost predicate IsShared(ring: Ring, hash: Hash, node: string, count: nat, p: Uint32) {
    p in Points(hash, node, count) && p in ring.nodes && ring.nodes[p] != node
  }

  /** Clockwise from p, the first point that is not one of the node's exists and has the same holder as p. */
  ghost predicate HolderFollows(ring: Ring, hash: Hash, node: string, count: nat, p: Uint32)
    requires p in ring.nodes
  {
    exists q :: IsSuccessor(ring.nodes.Keys - Points(hash, node, count), p, q) && ring.nodes[q] == ring.nodes[p]
  }

  ghost predicate SharedPointsStayPut(ring: Ring, hash: Hash, node: string, count: nat) {
    forall p :: IsShared(ring, hash, node, count, p) ==> HolderFollows(ring, hash, node, count, p)
  }

  ghost predicate OnlyOwnKeysMove(ring: Ring, hash: Hash, node: string, count: nat) {
    var after := Remove(ring, hash, node, count).nodes;
    forall h: Uint32 :: Owner(ring.nodes, h) != Some(node) ==> Owner(after, h) == Owner(ring.nodes, h)
  }

  /**
   * Removing a node moves only the keys it owned exactly when, on the ring before, every point it shares
   * with another node is followed by a point of that other node that is not the removed node's as well.
   */
  lemma RemovalMovesOnlyOwnKeys(ring: Ring, hash: Hash, node: string, count: nat)
    ensures OnlyOwnKeysMove(ring, hash, node, count) <==> SharedPointsStayPut(ring, hash, node, count)
  {
    if OnlyOwnKeysMove(ring, hash, node, count) {
      forall p | IsShared(ring, hash, node, count, p) ensures HolderFollows(ring, hash, node, count, p) {
        FollowerFromOwner(ring, hash, node, count, p);
      }
    }
    if SharedPointsStayPut(ring, hash, node, count) {
      forall h: Uint32 | Owner(ring.nodes, h) != Some(node)
        ensures Owner(Remove(ring, hash, node, count).nodes, h) == Owner(ring.nodes, h)
      {
        RemovalAt(ring, hash, node, count, h);
      }
    }
  }

  /** The key that hashes to a shared point shows whose point comes next. */
  lemma FollowerFromOwner(ring: Ring, hash: Hash, node: string, count: nat, p: Uint32)
    requires OnlyOwnKeysMove(ring, hash, node, count) && IsShared(ring, hash, node, count, p)
    ensures HolderFollows(ring, hash, node, count, p)
  {
    var after := Remove(ring, hash, node, count).nodes;
    assert IsSuccessor(ring.nodes.Keys, p, p);
    OwnerIs(ring.nodes, p, p);
    assert Owner(after, p) == Some(ring.nodes[p]);
    var q := SuccessorExists(after.Keys, p);
    OwnerIs(after, p, q);
    assert after.Keys == ring.nodes.Keys - Points(hash, node, count);
  }

  lemma RemovalAt(ring: Ring, hash: Hash, node: string, count: nat, h: Uint32)
    requires SharedPointsStayPut(ring, hash, node, count)
    requires Owner(ring.nodes, h) != Some(node)
    ensures Owner(Remove(ring, hash, node, count).nodes, h) == Owner(ring.nodes, h)
  {
    var after := Remove(ring, hash, node, count).nodes;
    assert after.Keys == ring.nodes.Keys - Points(hash, node, count);
    if ring.nodes != map[] {
      var key :| key in ring.nodes;
      var p := SuccessorExists(ring.nodes.Keys, h);
      OwnerIs(ring.nodes, h, p);
      if p in after {
        assert IsSuccessor(after.Keys, h, p);
        OwnerIs(after, h, p);
      } else {
        assert IsShared(ring, hash, node, count, p);
        var next :| IsSuccessor(after.Keys, p, next) && ring.nodes[next] == ring.nodes[p];
        NextPointIsShared(ring.nodes.Keys, after.Keys, h, p, next);
        OwnerIs(after, h, next);
      }
    }
  }

  lemma NextPointIsShared(points: set<Uint32>, left: set<Uint32>, h: Uint32, p: Uint32, next: Uint32)
    requires left <= points && IsSuccessor(points, h, p) && IsSuccessor(left, p, next)
    ensures IsSuccessor(left, h, next)
  {
    forall q | q in left ensures Clockwise(h, next) <= Clockwise(h, q) {
      assert Clockwise(h, p) <= Clockwise(h, q) && Clockwise(h, p) <= Clockwise(h, next);
      assert Clockwise(p, next) <= Clockwise(p, q);
    }
  }

  /** One point per node: "a" and "b" collide at 5, "c" sits at 7. */
  function CollidingHash(key: string): Uint32 {
    if key == "c#0" then 7 else 5
  }

  const COLLIDING_RING := Ring(map[][5 := "a"][5 := "b"][7 := "c"], [] + [5] + [5] + [7])

  lemma PointsOfThree()
    ensures PointList(CollidingHash, "a", 1) == [5] && PointList(CollidingHash, "b", 1) == [5]
    ensures PointList(CollidingHash, "c", 1) == [7]
  {
    assert Decimal(0) == "0";
    assert "a" + "#" + "0" == "a#0" && "b" + "#" + "0" == "b#0" && "c" + "#" + "0" == "c#0";
    assert "a#0"[0] != "c#0"[0] && "b#0"[0] != "c#0"[0];
  }

  lemma OneMoreAdd(hash: Hash, ops: seq<RingOp>, node: string)
    ensures RunRing(hash, 1, ops + [AddOp(node)]) == Add(RunRing(hash, 1, ops), hash, node, 1)
  {
    assert (ops + [AddOp(node)])[..|ops + [AddOp(node)]| - 1] == ops;
  }

  ghost predicate AscendingTo(keys: seq<Uint32>, p: Uint32) {
    Ascending(keys) && forall i :: 0 <= i < |keys| ==> keys[i] <= p
  }

  lemma AddOnePoint(ring: Ring, hash: Hash, node: string, p: Uint32)
    requires PointList(hash, node, 1) == [p] && AscendingTo(ring.sortedKeys, p)
    ensures Add(ring, hash, node, 1) == Ring(ring.nodes[p := node], ring.sortedKeys + [p])
    ensures AscendingTo(ring.sortedKeys + [p], p)
  {
    SortAscendingIdle(ring.sortedKeys + [p]);
    assert ring.nodes + Claimed([p], node) == ring.nodes[p := node];
  }

  /** Adding two nodes with one colliding point and a third node further on. */
  lemma ThreeAdds(hash: Hash, a: string, b: string, c: string, p: Uint32, q: Uint32)
    requires PointList(hash, a, 1) == PointList(hash, b, 1) == [p] && PointList(hash, c, 1) == [q] && p <= q
    ensures Add(Add(Add(EMPTY_RING, hash, a, 1), hash, b, 1), hash, c, 1) ==
      Ring(map[][p := a][p := b][q := c], [] + [p] + [p] + [q])
  {
    var one := Ring(map[][p := a], [] + [p]);
    var two := Ring(map[][p := a][p := b], [] + [p] + [p]);
    AddOnePoint(EMPTY_RING, hash, a, p);
    AddOnePoint(one, hash, b, p);
    AddOnePoint(two, hash, c, q);
  }

  lemma CollidingRingIsReached()
    ensures RunRing(CollidingHash, 1, [] + [AddOp("a")] + [AddOp("b")] + [AddOp("c")]) == COLLIDING_RING
  {
    PointsOfThree();
    ThreeAdds(CollidingHash, "a", "b", "c", 5, 7);
    OneMoreAdd(CollidingHash, [], "a");
    OneMoreAdd(CollidingHash, [] + [AddOp("a")], "b");
    OneMoreAdd(CollidingHash, [] + [AddOp("a")] + [AddOp("b")], "c");
  }

  /** On that ring, removing "a" hands the keys of "b" to "c", although "b" stays. */
  lemma RemovalMovesForeignKey()
    ensures Owner(COLLIDING_RING.nodes, 5) == Some("b")
    ensures Owner(Remove(COLLIDING_RING, CollidingHash, "a", 1).nodes, 5) == Some("c")
    ensures !OnlyOwnKeysMove(COLLIDING_RING, CollidingHash, "a", 1)
  {
    PointsOfThree();
    var before, after := COLLIDING_RING.nodes, Remove(COLLIDING_RING, CollidingHash, "a", 1).nodes;
    assert 5 in [5];
    assert IsSuccessor(before.Keys, 5, 5);
    OwnerIs(before, 5, 5);
    assert after == map[7 := "c"];
    assert IsSuccessor(after.Keys, 5, 7);
    OwnerIs(after, 5, 7);
  }

  lemma RemovalWithoutSharedPoints(ring: Ring, hash: Hash, node: string, count: nat)
    requires forall p :: p in Points(hash, node, count) && p in ring.nodes ==> ring.nodes[p] == node
    ensures OnlyOwnKeysMove(ring, hash, node, count)
  {
    RemovalMovesOnlyOwnKeys(ring, hash, node, count);
  }

  /** Add followed by remove restores the ring exactly when none of the node's points was on it. */
  lemma AddThenRemove(ring: Ring, hash: Hash, node: string, count: nat)
    requires Represents(ring)
    ensures Remove(Add(ring, hash, node, count), hash, node, count) == ring
      <==> Points(hash, node, count) !! ring.nodes.Keys
  {
    var points := PointList(hash, node, count);
    var added := Add(ring, hash, node, count);
    var back := Remove(added, hash, node, count);
    assert back.nodes == ring.nodes - ElementsOf(points);
    if ElementsOf(points) !! ring.nodes.Keys {
      assert back.nodes == ring.nodes;
      SortThenFilter(ring.sortedKeys + points, ring.nodes.Keys);
      FilterConcat(ring.sortedKeys, points, ring.nodes.Keys);
      FilterKeepsAll(ring.sortedKeys, ring.nodes.Keys);
      FilterKeepsNone(points, ring.nodes.Keys);
      assert ring.sortedKeys + [] == ring.sortedKeys;
      SortAscendingIdle(ring.sortedKeys);
    } else {
      var p :| p in points && p in ring.nodes;
      assert p !in back.nodes;
    }
  }

  lemma FoundIsSuccessor(ring: Ring, h: Uint32, lo: nat)
    requires Represents(ring) && ring.nodes != map[] && lo <= |ring.sortedKeys|
    requires forall i :: 0 <= i < lo ==> ring.sortedKeys[i] < h
    requires forall i :: lo <= i < |ring.sortedKeys| ==> ring.sortedKeys[i] >= h
    ensures ring.sortedKeys != []
    ensures IsSuccessor(ring.nodes.Keys, h, ring.sortedKeys[if lo == |ring.sortedKeys| then 0 else lo])
  {
    var keys := ring.sortedKeys;
    var some :| some in ring.nodes;
    assert some in ElementsOf(keys);
    var p := keys[if lo == |keys| then 0 else lo];
    assert p in ElementsOf(keys);
    forall q | q in ring.nodes ensures Clockwise(h, p) <= Clockwise(h, q) {
      assert q in ElementsOf(keys);
      var i :| 0 <= i < |keys| && keys[i] == q;
    }
  }

  // ----- The ring object -----

  class HashRing {
    const hash: Hash
    const virtualNodes: nat
    var nodes: map<Uint32, string>
    var sortedKeys: seq<Uint32>

    function State(): Ring
      reads this
    {
      Ring(nodes, sortedKeys)
    }

    ghost predicate Valid()
      reads this
    {
      Represents(State())
    }

    constructor (hash: Hash, virtualNodes: nat)
      ensures Valid() && State() == EMPTY_RING
      ensures this.hash == hash && this.virtualNodes == virtualNodes
    {
      this.hash, this.virtualNodes := hash, virtualNodes;
      nodes, sortedKeys := map[], [];
    }

    method AddNode(node: string)
      requires Valid()
      modifies this
      ensures Valid() && State() == Add(old(State()), hash, node, virtualNodes)
    {
      ghost var points := PointList(hash, node, virtualNodes);
      for i := 0 to virtualNodes
        invariant nodes == old(nodes) + Claimed(points[..i], node)
        invariant sortedKeys == old(sortedKeys) + points[..i]
      {
        var point := PointAt(hash, node, i);
        ClaimNext(old(nodes), points, i, node);
        nodes := nodes[point := node];
        sortedKeys := sortedKeys + [point];
      }
      assert points[..virtualNodes] == points;
      sortedKeys := SortAscending(sortedKeys);
      AddRepresents(old(State()), hash, node, virtualNodes);
    }

    method RemoveNode(node: string)
      requires Valid()
      modifies this
      ensures Valid() && State() == Remove(old(State()), hash, node, virtualNodes)
    {
      ghost var points := PointList(hash, node, virtualNodes);
      for i := 0 to virtualNodes
        invariant nodes == old(nodes) - ElementsOf(points[..i])
        invariant sortedKeys == old(sortedKeys)
      {
        nodes := nodes - {PointAt(hash, node, i)};
        assert points[..i + 1] == points[..i] + [PointAt(hash, node, i)];
      }
      assert points[..virtualNodes] == points;
      sortedKeys := KeysStillMapped();
      RemoveRepresents(old(State()), hash, node, virtualNodes);
    }

    method KeysStillMapped() returns (newSortedKeys: seq<Uint32>)
      ensures newSortedKeys == Filter(sortedKeys, nodes.Keys)
    {
      newSortedKeys := [];
      for i := 0 to |sortedKeys|
        invariant newSortedKeys == Filter(sortedKeys[..i], nodes.Keys)
      {
        assert sortedKeys[..i + 1][..i] == sortedKeys[..i];
        if sortedKeys[i] in nodes {
          newSortedKeys := newSortedKeys + [sortedKeys[i]];
        }
      }
      assert sortedKeys[..|sortedKeys|] == sortedKeys;
    }

    /** The binary search of sort.Search, then the wrap to index 0. */
    method GetNode(key: string) returns (node: Option<string>)
      requires Valid()
      ensures node == Owner(nodes, hash(key))
    {
      if |nodes| == 0 {
        return None;
      }
      var h := hash(key);
      var lo, hi := 0, |sortedKeys|;
      while lo < hi
        invariant 0 <= lo <= hi <= |sortedKeys|
        invariant forall i :: 0 <= i < lo ==> sortedKeys[i] < h
        invariant forall i :: hi <= i < |sortedKeys| ==> sortedKeys[i] >= h
      {
        var mid := (lo + hi) / 2;
        if sortedKeys[mid] < h {
          lo := mid + 1;
        } else {
          hi := mid;
        }
      }
      FoundIsSuccessor(State(), h, lo);
      var index := if lo == |sortedKeys| then 0 else lo;
      var point := sortedKeys[index];
      OwnerIs(nodes, h, point);
      node := Some(nodes[point]);
    }
  }
}
