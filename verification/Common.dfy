module Common {
  datatype Option<+T> = None | Some(value: T)

  ghost predicate NoDuplicates<T(!new)>(s: seq<T>) {
    forall i, j :: 0 <= i < j < |s| ==> s[i] != s[j]
  }

  function ElementsOf<T>(s: seq<T>): set<T> {
    set x | x in s
  }

  /** The elements of a set, each once, in some fixed order. */
  ghost function ListOf<T(!new)>(s: set<T>): (list: seq<T>)
    ensures NoDuplicates(list) && forall x :: x in list <==> x in s
  {
    if s == {} then []
    else
      var x :| x in s;
      ListOf(s - {x}) + [x]
  }

  lemma MemberOf<T>(s: set<T>) returns (x: T)
    requires s != {}
    ensures x in s
  {
    x :| x in s;
  }

  /** A duplicate-free list is as long as its set of elements is large. */
  lemma {:induction false} NoDuplicatesSize<T(!new)>(s: seq<T>)
    requires NoDuplicates(s)
    ensures |ElementsOf(s)| == |s|
  {
    if s != [] {
      var init, last := s[..|s| - 1], s[|s| - 1];
      NoDuplicatesSize(init);
      assert ElementsOf(s) == ElementsOf(init) + {last} by {
        assert s == init + [last];
      }
      assert last !in init;
    }
  }

  lemma {:induction false} NoDuplicatesMultiset<T(!new)>(s: seq<T>)
    requires NoDuplicates(s)
    ensures multiset(s) == multiset(ElementsOf(s))
  {
    if s != [] {
      var init, last := s[..|s| - 1], s[|s| - 1];
      NoDuplicatesMultiset(init);
      assert s == init + [last];
      assert ElementsOf(s) == ElementsOf(init) + {last};
    }
  }

  lemma SameElements<T(!new)>(a: seq<T>, b: seq<T>)
    requires NoDuplicates(a) && NoDuplicates(b) && forall x :: x in a <==> x in b
    ensures multiset(a) == multiset(b)
  {
    NoDuplicatesMultiset(a);
    NoDuplicatesMultiset(b);
    assert ElementsOf(a) == ElementsOf(b);
  }
}
