/**
 * Selection of the best results (internal/storage/helpers.go) and the theory of top-k lists
 * that makes per-shard truncation harmless.
 *
 * A score list is described by how many of its entries reach each threshold. Those counts add up
 * under concatenation, ignore order, and are capped at k by truncation; a descending list is
 * determined by them.
 */
module TopK {
  import opened Vectors

  // ----- Score lists and their counts -----

  function Scores(results: seq<SearchResult>): (scores: seq<real>)
    ensures |scores| == |results|
    ensures forall i :: 0 <= i < |results| ==> scores[i] == results[i].score
  {
    seq(|results|, i requires 0 <= i < |results| => results[i].score)
  }

  function Min(a: nat, b: nat): nat {
    if a <= b then a else b
  }

  ghost predicate Descending(s: seq<real>) {
    forall i, j :: 0 <= i < j < |s| ==> s[i] >= s[j]
  }

  /** How many entries reach the threshold x. */
  ghost function AtLeast(s: seq<real>, x: real): (n: nat)
    ensures n <= |s|
  {
    if s == [] then 0 else (if s[0] >= x then 1 else 0) + AtLeast(s[1..], x)
  }

  lemma {:induction false} AtLeastConcat(s: seq<real>, t: seq<real>, x: real)
    ensures AtLeast(s + t, x) == AtLeast(s, x) + AtLeast(t, x)
  {
    if s == [] {
      assert s + t == t;
    } else {
      assert (s + t)[1..] == s[1..] + t;
      AtLeastConcat(s[1..], t, x);
    }
  }

  lemma Cancel<T>(a: multiset<T>, b: multiset<T>, c: multiset<T>)
    requires a + c == b + c
    ensures a == b
  {
    assert a == (a + c) - c;
    assert b == (b + c) - c;
  }

  lemma SplitOff<T>(t: seq<T>, j: nat)
    requires j < |t|
    ensures multiset(t) == multiset(t[..j] + t[j + 1..]) + multiset{t[j]}
  {
    assert t == t[..j] + ([t[j]] + t[j + 1..]);
  }

  /** In a rearrangement of s, find the first entry of s; what is left is a rearrangement of the rest. */
  lemma MatchFirst<T>(s: seq<T>, t: seq<T>) returns (j: nat)
    requires s != [] && multiset(s) == multiset(t)
    ensures j < |t| && t[j] == s[0]
    ensures multiset(s[1..]) == multiset(t[..j] + t[j + 1..])
  {
    assert s[0] in multiset(t);
    j :| 0 <= j < |t| && t[j] == s[0];
    SplitOff(s, 0);
    SplitOff(t, j);
    assert s[..0] + s[1..] == s[1..];
    Cancel(multiset(s[1..]), multiset(t[..j] + t[j + 1..]), multiset{s[0]});
  }

  lemma {:induction false} AtLeastIgnoresOrder(s: seq<real>, t: seq<real>, x: real)
    requires multiset(s) == multiset(t)
    ensures AtLeast(s, x) == AtLeast(t, x)
  {
    if s == [] {
      assert |multiset(t)| == 0;
    } else {
      var j := MatchFirst(s, t);
      AtLeastIgnoresOrder(s[1..], t[..j] + t[j + 1..], x);
      AtLeastSplit(t, j, x);
    }
  }

  lemma AtLeastSplit(t: seq<real>, j: nat, x: real)
    requires j < |t|
    ensures AtLeast(t, x) == AtLeast(t[..j] + t[j + 1..], x) + if t[j] >= x then 1 else 0
  {
    assert t == t[..j] + t[j..];
    AtLeastConcat(t[..j], t[j..], x);
    AtLeastConcat(t[..j], t[j + 1..], x);
  }

  lemma {:induction false} AtLeastNone(s: seq<real>, x: real)
    requires forall i :: 0 <= i < |s| ==> s[i] < x
    ensures AtLeast(s, x) == 0
  {
    if s != [] {
      AtLeastNone(s[1..], x);
    }
  }

  lemma {:induction false} AtLeastAll(s: seq<real>, x: real)
    requires forall i :: 0 <= i < |s| ==> s[i] >= x
    ensures AtLeast(s, x) == |s|
  {
    if s != [] {
      AtLeastAll(s[1..], x);
    }
  }

  lemma {:induction false} AtLeastWitness(s: seq<real>, x: real) returns (i: nat)
    requires AtLeast(s, x) > 0
    ensures i < |s| && s[i] >= x
  {
    if s[0] >= x {
      i := 0;
    } else {
      i := AtLeastWitness(s[1..], x);
      i := i + 1;
    }
  }

  // ----- Descending lists are determined by their counts -----

  lemma {:induction false} DescendingByCounts(s: seq<real>, t: seq<real>)
    requires Descending(s) && Descending(t) && |s| == |t|
    requires forall x :: AtLeast(s, x) == AtLeast(t, x)
    ensures s == t
  {
    if s != [] {
      assert AtLeast(t, s[0]) == AtLeast(s, s[0]) > 0;
      var i := AtLeastWitness(t, s[0]);
      assert AtLeast(s, t[0]) == AtLeast(t, t[0]) > 0;
      var j := AtLeastWitness(s, t[0]);
      assert s[0] == t[0];
      forall x ensures AtLeast(s[1..], x) == AtLeast(t[1..], x) {
        assert AtLeast(s, x) == AtLeast(t, x);
      }
      DescendingByCounts(s[1..], t[1..]);
      assert s == [s[0]] + s[1..] && t == [t[0]] + t[1..];
    }
  }

  // ----- The reference: sort descending, keep the first k -----

  ghost function InsertDescending(x: real, s: seq<real>): (r: seq<real>)
    ensures |r| == |s| + 1
  {
    if s == [] || x >= s[0] then [x] + s else [s[0]] + InsertDescending(x, s[1..])
  }

  ghost function SortDescending(s: seq<real>): (r: seq<real>)
    ensures |r| == |s|
  {
    if s == [] then [] else InsertDescending(s[0], SortDescending(s[1..]))
  }

  lemma {:induction false} InsertDescendingSorted(x: real, s: seq<real>)
    requires Descending(s)
    ensures Descending(InsertDescending(x, s))
    ensures var r := InsertDescending(x, s); r != [] && (r[0] == x || (s != [] && r[0] == s[0]))
  {
    if s == [] || x >= s[0] {
    } else {
      InsertDescendingSorted(x, s[1..]);
      assert InsertDescending(x, s[1..])[0] <= s[0];
    }
  }

  lemma {:induction false} InsertDescendingAdds(x: real, s: seq<real>)
    ensures multiset(InsertDescending(x, s)) == multiset(s) + multiset{x}
  {
    if s == [] || x >= s[0] {
    } else {
      InsertDescendingAdds(x, s[1..]);
      assert s == [s[0]] + s[1..];
    }
  }

  lemma {:induction false} SortDescendingSorts(s: seq<real>)
    ensures Descending(SortDescending(s))
    ensures multiset(SortDescending(s)) == multiset(s)
  {
    if s != [] {
      SortDescendingSorts(s[1..]);
      InsertDescendingSorted(s[0], SortDescending(s[1..]));
      InsertDescendingAdds(s[0], SortDescending(s[1..]));
      assert s == [s[0]] + s[1..];
    }
  }

  /** The first min(k, |all|) entries of the descending sort of all. */
  ghost function Best(all: seq<real>, k: nat): seq<real> {
    SortDescending(all)[..Min(k, |all|)]
  }

  /** r lists the k best entries of all, described by thresholds only. */
  ghost predicate IsTopK(r: seq<real>, all: seq<real>, k: nat) {
    && Descending(r)
    && |r| == Min(k, |all|)
    && forall x :: AtLeast(r, x) == Min(k, AtLeast(all, x))
  }

  lemma {:induction false} TruncationCapsCounts(s: seq<real>, k: nat, x: real)
    requires Descending(s) && k <= |s|
    ensures AtLeast(s[..k], x) == Min(k, AtLeast(s, x))
  {
    if k > 0 {
      if s[0] >= x {
        assert s[..k][1..] == s[1..][..k - 1];
        TruncationCapsCounts(s[1..], k - 1, x);
      } else {
        AtLeastNone(s, x);
        AtLeastNone(s[..k], x);
      }
    }
  }

  /** The threshold description and the sort-then-truncate reference agree, in both directions. */
  lemma TopKIsSortThenTruncate(r: seq<real>, all: seq<real>, k: nat)
    ensures IsTopK(r, all, k) <==> r == Best(all, k)
  {
    SortDescendingSorts(all);
    var sorted := SortDescending(all);
    var n := Min(k, |all|);
    forall x ensures AtLeast(sorted[..n], x) == Min(k, AtLeast(all, x)) {
      TruncationCapsCounts(sorted, n, x);
      AtLeastIgnoresOrder(sorted, all, x);
    }
    if IsTopK(r, all, k) {
      DescendingByCounts(r, sorted[..n]);
    }
  }

  // ----- Merging truncated lists -----

  /** The two lists have the same k best entries. */
  ghost predicate SameTop(a: seq<real>, b: seq<real>, k: nat) {
    && Min(k, |a|) == Min(k, |b|)
    && forall x :: Min(k, AtLeast(a, x)) == Min(k, AtLeast(b, x))
  }

  /** Appending a list to one side and its k best to the other keeps the k best the same. */
  lemma SameTopExtends(a: seq<real>, b: seq<real>, top: seq<real>, list: seq<real>, k: nat)
    requires SameTop(a, b, k) && IsTopK(top, list, k)
    ensures SameTop(a + top, b + list, k)
  {
    forall x ensures Min(k, AtLeast(a + top, x)) == Min(k, AtLeast(b + list, x)) {
      AtLeastConcat(a, top, x);
      AtLeastConcat(b, list, x);
      assert Min(k, AtLeast(a, x)) == Min(k, AtLeast(b, x));
    }
  }

  lemma SameTopTransfers(r: seq<real>, a: seq<real>, b: seq<real>, k: nat)
    requires IsTopK(r, a, k) && SameTop(a, b, k)
    ensures IsTopK(r, b, k)
  {
  }

  ghost function Flatten(lists: seq<seq<real>>): seq<real> {
    if lists == [] then [] else Flatten(lists[..|lists| - 1]) + lists[|lists| - 1]
  }

  lemma {:induction false} FlattenSameTop(tops: seq<seq<real>>, lists: seq<seq<real>>, k: nat)
    requires |tops| == |lists|
    requires forall i :: 0 <= i < |lists| ==> IsTopK(tops[i], lists[i], k)
    ensures SameTop(Flatten(tops), Flatten(lists), k)
  {
    if lists != [] {
      var n := |lists| - 1;
      FlattenSameTop(tops[..n], lists[..n], k);
      SameTopExtends(Flatten(tops[..n]), Flatten(lists[..n]), tops[n], lists[n], k);
    }
  }

  /**
   * Distributed top-k is exact: cutting every shard's list to its own k best, merging the cut lists in
   * any order and cutting again gives the k best of everything.
   */
  lemma DistributedTopKIsExact(
      r: seq<real>, arrived: seq<real>, tops: seq<seq<real>>, lists: seq<seq<real>>, all: seq<real>, k: nat)
    requires |tops| == |lists|
    requires forall i :: 0 <= i < |lists| ==> IsTopK(tops[i], lists[i], k)
    requires multiset(arrived) == multiset(Flatten(tops))
    requires multiset(all) == multiset(Flatten(lists))
    requires IsTopK(r, arrived, k)
    ensures r == Best(all, k)
  {
    FlattenSameTop(tops, lists, k);
    Rearranging(arrived, Flatten(tops));
    Rearranging(all, Flatten(lists));
    assert SameTop(arrived, all, k) by {
      forall x ensures Min(k, AtLeast(arrived, x)) == Min(k, AtLeast(all, x)) {
        assert Min(k, AtLeast(Flatten(tops), x)) == Min(k, AtLeast(Flatten(lists), x));
      }
    }
    SameTopTransfers(r, arrived, all, k);
    TopKIsSortThenTruncate(r, all, k);
  }

  lemma Rearranging(a: seq<real>, b: seq<real>)
    requires multiset(a) == multiset(b)
    ensures |a| == |b| && forall x :: AtLeast(a, x) == AtLeast(b, x)
  {
    assert |multiset(a)| == |a| && |multiset(b)| == |b|;
    forall x ensures AtLeast(a, x) == AtLeast(b, x) {
      AtLeastIgnoresOrder(a, b, x);
    }
  }

  // ----- The minimum-score filter -----

  /** The scores that reach the bound, in order. */
  function KeepAtLeast(s: seq<real>, bound: real): seq<real> {
    if s == [] then []
    else (if s[0] >= bound then [s[0]] else []) + KeepAtLeast(s[1..], bound)
  }

  lemma {:induction false} KeepAtLeastCounts(s: seq<real>, bound: real, x: real)
    ensures |KeepAtLeast(s, bound)| == AtLeast(s, bound)
    ensures AtLeast(KeepAtLeast(s, bound), x) == AtLeast(s, if x >= bound then x else bound)
  {
    if s != [] {
      KeepAtLeastCounts(s[1..], bound, x);
      if s[0] >= bound {
        assert KeepAtLeast(s, bound)[1..] == KeepAtLeast(s[1..], bound);
      } else {
        assert KeepAtLeast(s, bound) == KeepAtLeast(s[1..], bound);
      }
    }
  }

  lemma {:induction false} KeepAtLeastDescending(s: seq<real>, bound: real)
    requires Descending(s)
    ensures Descending(KeepAtLeast(s, bound))
    ensures KeepAtLeast(s, bound) == s[..AtLeast(s, bound)]
  {
    if s != [] {
      KeepAtLeastDescending(s[1..], bound);
      if s[0] < bound {
        AtLeastNone(s, bound);
      } else {
        assert s == [s[0]] + s[1..];
      }
    }
  }

  /** Filtering by minimum score after taking the k best gives the k best of the filtered scores. */
  lemma MinScoreCommutesWithTruncation(r: seq<real>, all: seq<real>, k: nat, bound: real)
    requires IsTopK(r, all, k)
    ensures IsTopK(KeepAtLeast(r, bound), KeepAtLeast(all, bound), k)
    ensures KeepAtLeast(r, bound) == Best(KeepAtLeast(all, bound), k)
  {
    KeepAtLeastDescending(r, bound);
    forall x ensures AtLeast(KeepAtLeast(r, bound), x) == Min(k, AtLeast(KeepAtLeast(all, bound), x)) {
      KeepAtLeastCounts(r, bound, x);
      KeepAtLeastCounts(all, bound, x);
    }
    KeepAtLeastCounts(r, bound, bound);
    KeepAtLeastCounts(all, bound, bound);
    TopKIsSortThenTruncate(KeepAtLeast(r, bound), KeepAtLeast(all, bound), k);
  }

  // ----- The in-place algorithms -----

  /** Everything before position k scores at least as much as everything from k on. */
  ghost predicate SplitAt(s: seq<SearchResult>, k: int) {
    forall i, j :: 0 <= i < k <= j < |s| ==> s[i].score >= s[j].score
  }

  /** t is s with the entries of the segment [lo, hi) permuted among themselves. */
  ghost predicate Rearranged<T(!new)>(s: seq<T>, t: seq<T>, lo: int, hi: int) {
    && 0 <= lo <= hi <= |s| == |t|
    && multiset(s) == multiset(t)
    && (forall m :: 0 <= m < lo || hi <= m < |s| ==> s[m] == t[m])
  }

  lemma RearrangedSegment<T(!new)>(s: seq<T>, t: seq<T>, lo: int, hi: int)
    requires Rearranged(s, t, lo, hi)
    ensures multiset(s[lo..hi]) == multiset(t[lo..hi])
    ensures s[hi..] == t[hi..]
  {
    assert s[..lo] == t[..lo] && s[hi..] == t[hi..];
    ThreeParts(s, lo, hi);
    ThreeParts(t, lo, hi);
    Cancel(multiset(s[lo..hi]), multiset(t[lo..hi]), multiset(s[..lo]) + multiset(s[hi..]));
  }

  lemma ThreeParts<T>(s: seq<T>, lo: int, hi: int)
    requires 0 <= lo <= hi <= |s|
    ensures multiset(s) == multiset(s[lo..hi]) + (multiset(s[..lo]) + multiset(s[hi..]))
  {
    assert s == s[..lo] + (s[lo..hi] + s[hi..]);
    assert multiset(s) == multiset(s[..lo]) + multiset(s[lo..hi] + s[hi..]);
  }

  /** Entries of a rearranged segment keep any bound that held for the whole segment. */
  lemma SegmentKeepsBounds(before: seq<SearchResult>, after: seq<SearchResult>, lo: int, hi: int)
    requires Rearranged(before, after, lo, hi)
    ensures SplitAt(before, lo) ==> SplitAt(after, lo)
    ensures SplitAt(before, hi) ==> SplitAt(after, hi)
  {
    RearrangedSegment(before, after, lo, hi);
    forall m | lo <= m < hi ensures exists p :: lo <= p < hi && before[p] == after[m] {
      assert after[m] in after[lo..hi];
      assert after[m] in multiset(before[lo..hi]);
      var q :| 0 <= q < |before[lo..hi]| && before[lo..hi][q] == after[m];
      assert before[lo + q] == after[m];
    }
  }

  lemma Swapped<T>(s: seq<T>, i: int, j: int)
    requires 0 <= i < |s| && 0 <= j < |s|
    ensures multiset(s[i := s[j]][j := s[i]]) == multiset(s)
  {
    var once := s[i := s[j]];
    assert multiset(once) == multiset(s) - multiset{s[i]} + multiset{s[j]};
    assert multiset(once[j := s[i]]) == multiset(once) - multiset{s[j]} + multiset{s[i]};
  }

  method Swap(a: array<SearchResult>, i: int, j: int)
    requires 0 <= i < a.Length && 0 <= j < a.Length
    modifies a
    ensures a[i] == old(a[j]) && a[j] == old(a[i])
    ensures forall m :: 0 <= m < a.Length && m != i && m != j ==> a[m] == old(a[m])
    ensures multiset(a[..]) == old(multiset(a[..]))
  {
    Swapped(a[..], i, j);
    ghost var after := a[..][i := a[j]][j := a[i]];
    a[i], a[j] := a[j], a[i];
    assert a[..] == after;
  }

  /** Lomuto partition around the last entry of the range, larger scores first. */
  method PartitionResults(a: array<SearchResult>, left: int, right: int) returns (p: int)
    requires 0 <= left <= right < a.Length
    modifies a
    ensures left <= p <= right
    ensures forall m :: left <= m < p ==> a[m].score > a[p].score
    ensures forall m :: p < m <= right ==> a[m].score <= a[p].score
    ensures Rearranged(old(a[..]), a[..], left, right + 1)
  {
    var pivot := a[right].score;
    var i := left;
    for j := left to right
      invariant left <= i <= j
      invariant a[right].score == pivot
      invariant forall m :: left <= m < i ==> a[m].score > pivot
      invariant forall m :: i <= m < j ==> a[m].score <= pivot
      invariant Rearranged(old(a[..]), a[..], left, right + 1)
    {
      if a[j].score > pivot {
        Swap(a, i, j);
        i := i + 1;
      }
    }
    Swap(a, i, right);
    p := i;
  }

  /** One partition of [left, right] keeps the outer splits and adds the two splits around its pivot. */
  lemma PartitionStep(before: seq<SearchResult>, after: seq<SearchResult>, left: int, p: int, right: int)
    requires 0 <= left <= p <= right < |before|
    requires Rearranged(before, after, left, right + 1)
    requires SplitAt(before, left) && SplitAt(before, right + 1)
    requires forall m :: left <= m < p ==> after[m].score > after[p].score
    requires forall m :: p < m <= right ==> after[m].score <= after[p].score
    ensures SplitAt(after, left) && SplitAt(after, right + 1) && SplitAt(after, p) && SplitAt(after, p + 1)
    ensures multiset(after) == multiset(before)
  {
    SegmentKeepsBounds(before, after, left, right + 1);
  }

  /**
   * Quickselect with the split position k. For 0 <= k the k largest scores end up in front; for a
   * negative k the call only permutes.
   */
  method QuickSelectResults(a: array<SearchResult>, k: int)
    modifies a
    ensures multiset(a[..]) == old(multiset(a[..]))
    ensures 0 <= k ==> SplitAt(a[..], k)
    ensures a.Length <= k ==> a[..] == old(a[..])
  {
    if a.Length <= k {
      return;
    }
    var left, right := 0, a.Length - 1;
    while left < right
      invariant 0 <= left && right < a.Length
      invariant 0 <= k ==> left <= k <= right
      invariant k < 0 ==> left == 0
      invariant SplitAt(a[..], left) && SplitAt(a[..], right + 1)
      invariant multiset(a[..]) == old(multiset(a[..]))
      decreases right - left
    {
      ghost var before := a[..];
      var p := PartitionResults(a, left, right);
      PartitionStep(before, a[..], left, p, right);
      if p == k {
        return;
      } else if p < k {
        left := p + 1;
      } else {
        right := p - 1;
      }
    }
  }

  /** The exchange sort of the source: swap whenever a later entry scores more than position i. */
  method SortResultsByScore(a: array<SearchResult>, n: nat)
    requires n <= a.Length
    modifies a
    ensures Descending(Scores(a[..n]))
    ensures Rearranged(old(a[..]), a[..], 0, n)
  {
    var i := 0;
    while i < n - 1
      invariant 0 <= i && (n == 0 || i <= n - 1)
      invariant forall p, q :: 0 <= p < i && p < q < n ==> a[p].score >= a[q].score
      invariant Rearranged(old(a[..]), a[..], 0, n)
    {
      BestToFront(a, i, n);
      i := i + 1;
    }
  }

  /** The inner loop: position i receives the largest score of [i, n). */
  method BestToFront(a: array<SearchResult>, i: nat, n: nat)
    requires i < n <= a.Length
    requires forall p, q :: 0 <= p < i && p < q < n ==> a[p].score >= a[q].score
    modifies a
    ensures forall p, q :: 0 <= p <= i && p < q < n ==> a[p].score >= a[q].score
    ensures Rearranged(old(a[..]), a[..], 0, n)
  {
    for j := i + 1 to n
      invariant forall p, q :: 0 <= p < i && p < q < n ==> a[p].score >= a[q].score
      invariant forall q :: i < q < j ==> a[i].score >= a[q].score
      invariant Rearranged(old(a[..]), a[..], 0, n)
    {
      if a[i].score < a[j].score {
        Swap(a, i, j);
      }
    }
  }
}
