/** Lists without repetitions, and the sets and multisets of their items. */
module Sequences {

  /** No item occurs twice. */
  ghost predicate NoDup<T>(s: seq<T>) {
    forall i, j :: 0 <= i < j < |s| ==> s[i] != s[j]
  }

  /** s lists exactly the given items, each one once. */
  ghost predicate Lists<T(!new)>(s: seq<T>, items: set<T>) {
    NoDup(s) && forall x :: x in s <==> x in items
  }

  function Elements<T>(s: seq<T>): set<T> {
    set x | x in s
  }

  lemma {:induction false} NoDupCardinality<T>(s: seq<T>)
    requires NoDup(s)
    ensures |Elements(s)| == |s|
  {
    if s == [] {
      assert Elements(s) == {};
    } else {
      var t := s[..|s|-1];
      NoDupCardinality(t);
      assert Elements(s) == Elements(t) + {s[|s|-1]};
      assert s[|s|-1] !in t;
    }
  }

  lemma NoDupFits<T>(s: seq<T>, r: set<T>)
    requires NoDup(s) && forall x :: x in s ==> x in r
    ensures |s| <= |r|
  {
    NoDupCardinality(s);
    SubsetCardinality(Elements(s), r);
  }

  lemma {:induction false} SubsetCardinality<T>(a: set<T>, b: set<T>)
    requires a <= b
    ensures |a| <= |b|
    decreases |a|
  {
    if a != {} {
      var x :| x in a;
      SubsetCardinality(a - {x}, b - {x});
    }
  }

  lemma NoDupConcat<T>(a: seq<T>, b: seq<T>)
    requires NoDup(a) && NoDup(b) && forall x :: x in a ==> x !in b
    ensures NoDup(a + b)
  {
    forall i, j | 0 <= i < j < |a + b| ensures (a + b)[i] != (a + b)[j] {
      if i < |a| <= j {
        assert a[i] in a && b[j-|a|] in b;
      }
    }
  }

  /** Two duplicate-free lists of the same items are permutations of each other. */
  lemma SameItems<T(!new)>(s: seq<T>, t: seq<T>)
    requires NoDup(s) && NoDup(t) && forall x :: x in s <==> x in t
    ensures |s| == |t| && multiset(s) == multiset(t)
  {
    NoDupCardinality(s);
    NoDupCardinality(t);
    assert Elements(s) == Elements(t);
    forall x ensures multiset(s)[x] == multiset(t)[x] {
      NoDupCount(s, x);
      NoDupCount(t, x);
    }
  }

  lemma {:induction false} NoDupCount<T>(s: seq<T>, x: T)
    requires NoDup(s)
    ensures multiset(s)[x] == if x in s then 1 else 0
  {
    if s != [] {
      var t := s[..|s|-1];
      NoDupCount(t, x);
      assert s == t + [s[|s|-1]];
      assert s[|s|-1] !in t;
    }
  }

  // ---------- positions in a list

  ghost predicate Within(ks: seq<nat>, n: nat) {
    forall i :: 0 <= i < |ks| ==> ks[i] < n
  }

  ghost predicate Ascending(ks: seq<nat>) {
    forall i, j :: 0 <= i < j < |ks| ==> ks[i] < ks[j]
  }

  lemma AscendingMore(ks: seq<nat>, n: nat)
    requires Within(ks, n) && Ascending(ks)
    ensures Ascending(ks + [n])
  {
  }
}
