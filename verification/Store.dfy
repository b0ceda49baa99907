/**
 * One Redis database as the unsharded adapter uses it (internal/storage/redis_adapter.go): vector keys,
 * and one sorted set of ids per index. Values, effects of each command, and when keys collide.
 */
module Store {
  import opened Common
  import opened Vectors

  // ----- Keys -----

  function VectorKey(index: string, id: string): string {
    "vector:" + index + ":" + id
  }

  function IdsKey(index: string): string {
    "index:" + index + ":ids"
  }

  /** Two different index names where one continues the other after a colon, such as "a" and "a:b". */
  predicate Clash(a: string, b: string) {
    a != b && (a + ":" <= b || b + ":" <= a)
  }

  lemma IdsKeyInjective(a: string, b: string)
    requires IdsKey(a) == IdsKey(b)
    ensures a == b
  {
    var n := |"index:"|;
    assert |a| == |b|;
    assert a == IdsKey(a)[n..n + |a|];
    assert b == IdsKey(b)[n..n + |b|];
  }

  lemma JoinedNames(a: string, x: string, b: string, y: string)
    requires a + ":" + x == b + ":" + y && |a| <= |b|
    ensures (a == b && x == y) || a + ":" <= b
  {
    var s := a + ":" + x;
    assert a == s[..|a|] && b == s[..|b|];
    if |a| == |b| {
      assert x == s[|a| + 1..] && y == s[|b| + 1..];
    } else {
      assert s[|a|] == ':';
      assert a + [':'] == s[..|a| + 1] == b[..|a| + 1];
    }
  }

  lemma VectorKeyInjective(a: string, x: string, b: string, y: string)
    requires VectorKey(a, x) == VectorKey(b, y)
    requires !Clash(a, b)
    ensures a == b && x == y
  {
    var n := |"vector:"|;
    assert VectorKey(a, x)[n..] == a + ":" + x;
    assert VectorKey(b, y)[n..] == b + ":" + y;
    if |a| <= |b| {
      JoinedNames(a, x, b, y);
    } else {
      JoinedNames(b, y, a, x);
    }
  }

  lemma ClashingNames(a: string, b: string, y: string) returns (x: string)
    requires a + ":" <= b
    ensures VectorKey(a, x) == VectorKey(b, y)
    ensures x != y
  {
    var rest := b[|a| + 1..];
    x := rest + ":" + y;
    assert b == a + ":" + rest;
    assert |x| > |y|;
    assert VectorKey(a, x) == VectorKey(b, y);
  }

  /** Vector keys of two different indexes can coincide exactly when the index names clash. */
  lemma KeysCollideExactlyWhenNamesClash(a: string, b: string)
    requires a != b
    ensures (exists x, y :: VectorKey(a, x) == VectorKey(b, y)) <==> Clash(a, b)
  {
    if x, y :| VectorKey(a, x) == VectorKey(b, y) {
      if !Clash(a, b) {
        VectorKeyInjective(a, x, b, y);
      }
    }
    if a + ":" <= b {
      var x := ClashingNames(a, b, "");
      assert VectorKey(a, x) == VectorKey(b, "");
    } else if b + ":" <= a {
      var x := ClashingNames(b, a, "");
      assert VectorKey(a, "") == VectorKey(b, x);
    }
  }

  // ----- The database and its commands -----

  datatype Db = Db(vectors: map<string, StoredVector>, ids: map<string, map<string, int>>)

  const EMPTY_DB := Db(map[], map[])

  /** The members of an index's sorted set with their scores (timestamps); an absent set is empty. */
  function Members(db: Db, index: string): map<string, int> {
    if IdsKey(index) in db.ids then db.ids[IdsKey(index)] else map[]
  }

  function Lookup(db: Db, index: string, id: string): Option<StoredVector> {
    var key := VectorKey(index, id);
    if key in db.vectors then Some(db.vectors[key]) else None
  }

  /** What a search of the index can see under an id: it must be listed and its vector key present. */
  function Visible(db: Db, index: string, id: string): Option<StoredVector> {
    if id in Members(db, index) then Lookup(db, index, id) else None
  }

  function StoreOne(db: Db, index: string, v: StoredVector): Db {
    Db(db.vectors[VectorKey(index, v.id) := v],
       db.ids[IdsKey(index) := Members(db, index)[v.id := v.timestamp]])
  }

  function StoreAll(db: Db, index: string, vs: seq<StoredVector>): Db {
    if vs == [] then db
    else StoreOne(StoreAll(db, index, vs[..|vs| - 1]), index, vs[|vs| - 1])
  }

  /** ZREM: Redis drops a sorted set that becomes empty. */
  function WithoutMember(db: Db, index: string, id: string): map<string, map<string, int>> {
    var rest := Members(db, index) - {id};
    if rest == map[] then db.ids - {IdsKey(index)} else db.ids[IdsKey(index) := rest]
  }

  function DeleteOne(db: Db, index: string, id: string): Db {
    Db(db.vectors - {VectorKey(index, id)}, WithoutMember(db, index, id))
  }

  /** The batch form deletes vector keys only: the ids stay listed. */
  function DeleteMany(db: Db, index: string, ids: seq<string>): Db {
    db.(vectors := db.vectors - set id | id in ids :: VectorKey(index, id))
  }

  /** Dropping an index deletes its id set only: the vector keys stay. */
  function DropIds(db: Db, index: string): Db {
    db.(ids := db.ids - {IdsKey(index)})
  }

  /** The write commands a shard or a replica can receive. */
  datatype Write =
    | Put(index: string, vectors: seq<StoredVector>)
    | Remove(index: string, id: string)
    | RemoveMany(index: string, ids: seq<string>)
    | Drop(index: string)

  function Apply(db: Db, w: Write): Db {
    match w
    case Put(index, vs) => StoreAll(db, index, vs)
    case Remove(index, id) => DeleteOne(db, index, id)
    case RemoveMany(index, ids) => DeleteMany(db, index, ids)
    case Drop(index) => DropIds(db, index)
  }

  // ----- What each command changes, id by id -----

  /** The last vector of the list with the given id. */
  function LastWith(vs: seq<StoredVector>, id: string): Option<StoredVector> {
    if vs == [] then None
    else if vs[|vs| - 1].id == id then Some(vs[|vs| - 1])
    else LastWith(vs[..|vs| - 1], id)
  }

  lemma {:induction false} StoreAllEffect(db: Db, index: string, vs: seq<StoredVector>, j: string, e: string)
    requires !Clash(index, j)
    ensures var after, last := StoreAll(db, index, vs), LastWith(vs, e);
      if j == index && last.Some? then
        && Lookup(after, j, e) == last
        && e in Members(after, j) && Members(after, j)[e] == last.value.timestamp
      else
        && Lookup(after, j, e) == Lookup(db, j, e)
        && (e in Members(after, j) <==> e in Members(db, j))
        && (e in Members(db, j) ==> Members(after, j)[e] == Members(db, j)[e])
  {
    if vs != [] {
      var v := vs[|vs| - 1];
      StoreAllEffect(db, index, vs[..|vs| - 1], j, e);
      if VectorKey(index, v.id) == VectorKey(j, e) {
        VectorKeyInjective(index, v.id, j, e);
      }
      if IdsKey(index) == IdsKey(j) {
        IdsKeyInjective(index, j);
      }
    }
  }

  lemma DeleteOneEffect(db: Db, index: string, id: string, j: string, e: string)
    requires !Clash(index, j)
    ensures var after := DeleteOne(db, index, id);
      if j == index && e == id then
        Lookup(after, j, e) == None && e !in Members(after, j)
      else
        && Lookup(after, j, e) == Lookup(db, j, e)
        && (e in Members(after, j) <==> e in Members(db, j))
  {
    if VectorKey(index, id) == VectorKey(j, e) {
      VectorKeyInjective(index, id, j, e);
    }
    if IdsKey(index) == IdsKey(j) {
      IdsKeyInjective(index, j);
    }
  }

  lemma DeleteManyEffect(db: Db, index: string, ids: seq<string>, j: string, e: string)
    requires !Clash(index, j)
    ensures var after := DeleteMany(db, index, ids);
      && Lookup(after, j, e) == (if j == index && e in ids then None else Lookup(db, j, e))
      && Members(after, j) == Members(db, j)
  {
    if id :| id in ids && VectorKey(index, id) == VectorKey(j, e) {
      VectorKeyInjective(index, id, j, e);
    }
  }

  lemma DropIdsEffect(db: Db, index: string, j: string, e: string)
    ensures var after := DropIds(db, index);
      && Lookup(after, j, e) == Lookup(db, j, e)
      && Members(after, j) == (if j == index then map[] else Members(db, j))
  {
    if IdsKey(index) == IdsKey(j) {
      IdsKeyInjective(index, j);
    }
  }

  /** The ids a write may change. */
  predicate Touches(w: Write, e: string) {
    match w
    case Put(_, vs) => LastWith(vs, e).Some?
    case Remove(_, id) => id == e
    case RemoveMany(_, ids) => e in ids
    case Drop(_) => true
  }

  /** What a write leaves visible under (j, e), given what was visible before. */
  function VisibleAfter(before: Option<StoredVector>, w: Write, j: string, e: string): Option<StoredVector> {
    if w.index != j then before
    else match w
      case Put(_, vs) => if LastWith(vs, e).Some? then LastWith(vs, e) else before
      case Remove(_, id) => if id == e then None else before
      case RemoveMany(_, ids) => if e in ids then None else before
      case Drop(_) => None
  }

  /** Visibility is a homomorphic image of the database: leftovers never resurface. */
  lemma VisibleAfterWrite(db: Db, w: Write, j: string, e: string)
    requires !Clash(w.index, j)
    ensures Visible(Apply(db, w), j, e) == VisibleAfter(Visible(db, j, e), w, j, e)
  {
    match w
    case Put(index, vs) => StoreAllEffect(db, index, vs, j, e);
    case Remove(index, id) => DeleteOneEffect(db, index, id, j, e);
    case RemoveMany(index, ids) => DeleteManyEffect(db, index, ids, j, e);
    case Drop(index) => DropIdsEffect(db, index, j, e);
  }

  /** The ids a write can add to an index's id set. */
  lemma ListedAfterWrite(db: Db, w: Write, j: string, e: string)
    requires !Clash(w.index, j)
    requires e in Members(Apply(db, w), j)
    ensures e in Members(db, j) || (w.Put? && w.index == j && LastWith(w.vectors, e).Some?)
  {
    match w
    case Put(index, vs) => StoreAllEffect(db, index, vs, j, e);
    case Remove(index, id) => DeleteOneEffect(db, index, id, j, e);
    case RemoveMany(index, ids) => DeleteManyEffect(db, index, ids, j, e);
    case Drop(index) => DropIdsEffect(db, index, j, e);
  }

  lemma {:induction false} LastWithIsMember(vs: seq<StoredVector>, id: string)
    ensures LastWith(vs, id).Some? ==> LastWith(vs, id).value in vs && LastWith(vs, id).value.id == id
    ensures LastWith(vs, id).None? ==> forall v :: v in vs ==> v.id != id
  {
    if vs != [] {
      LastWithIsMember(vs[..|vs| - 1], id);
      assert vs == vs[..|vs| - 1] + [vs[|vs| - 1]];
    }
  }
}
