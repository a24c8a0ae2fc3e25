/**
 bindings/python/topsort.py: the order in which topsort lists the items. It is determined by the dictionaries and
 by the order of the items without parents; with one such item it is determined altogether.
 */
module SortOrder {
  import opened DepGraph
  import opened Sequences
  import opened TopSort

  /** Where an item was freed does not depend on what comes behind. */
  lemma SamePlace(g: Children, a: seq<Node>, b: seq<Node>, n: nat, m: nat, f: nat, p: nat, f': nat, p': nat)
    requires n <= |a| && n <= |b| && a[..n] == b[..n] && NoDup(b)
    requires FreedAt(g, a, n, f, p) && FreedAt(g, b, m, f', p') && n < m && a[n] == b[m]
    ensures f == f' && p == p'
  {
    var x := a[n];
    assert a[f] == b[f] by { assert a[..n][f] == b[..n][f]; }
    assert Edge(g, a[f], x) && Edge(g, b[f'], x);
    assert a[f] in b[..f'+1];
    assert f <= f';
    assert b[f'] in a[..f+1];
    var i :| 0 <= i < f + 1 && a[i] == b[f'];
    assert a[..n][i] == b[..n][i];
    SameLastEntry(g[a[f]], p, p');
  }

  lemma SameLastEntry(kids: seq<Node>, p: nat, p': nat)
    requires p < |kids| && p' < |kids| && kids[p] == kids[p']
    requires kids[p] !in kids[p+1..] && kids[p'] !in kids[p'+1..]
    ensures p == p'
  {
    if p < p' {
      InRest(kids, p, p');
    } else if p' < p {
      InRest(kids, p', p);
    }
  }

  lemma InRest(kids: seq<Node>, j: nat, k: nat)
    requires j < k < |kids|
    ensures kids[k] in kids[j+1..]
  {
    assert kids[j+1..][k-j-1] == kids[k];
  }

  /** Two answers that agree before the n-th item agree there, if the one of a has the earlier place. */
  lemma EarlierAgrees(g: Children, a: seq<Node>, b: seq<Node>, roots: nat, at: seq<(nat, nat)>, bt: seq<(nat, nat)>,
                      n: nat)
    requires InQueueOrder(g, a, roots, at) && InQueueOrder(g, b, roots, bt) && roots <= n < |a| && n < |b|
    requires NoDup(a) && NoDup(b) && a[..n] == b[..n] && a[n] in b && !Earlier(bt[n-roots], at[n-roots])
    ensures a[n] == b[n]
  {
    var k := n - roots;
    assert FreedAt(g, a, roots + k, at[k].0, at[k].1);
    assert FreedAt(g, b, roots + k, bt[k].0, bt[k].1);
    assert forall i :: 0 <= i < n ==> a[..n][i] == a[i] && b[..n][i] == b[i];
    var m :| 0 <= m < |b| && b[m] == a[n];
    if n < m {
      assert FreedAt(g, b, roots + (m - roots), bt[m-roots].0, bt[m-roots].1);
      SamePlace(g, a, b, n, m, at[k].0, at[k].1, bt[m-roots].0, bt[m-roots].1);
    }
  }

  lemma {:induction false} AgreeUpTo(g: Children, a: seq<Node>, b: seq<Node>, roots: nat, at: seq<(nat, nat)>,
                                     bt: seq<(nat, nat)>, n: nat)
    requires InQueueOrder(g, a, roots, at) && InQueueOrder(g, b, roots, bt)
    requires NoDup(a) && NoDup(b) && |a| == |b| && forall x :: x in a <==> x in b
    requires a[..roots] == b[..roots] && roots <= n <= |a|
    ensures a[..n] == b[..n]
  {
    if n > roots {
      AgreeUpTo(g, a, b, roots, at, bt, n - 1);
      assert a[n-1] in a && b[n-1] in b;
      if Earlier(bt[n-1-roots], at[n-1-roots]) {
        EarlierAgrees(g, b, a, roots, bt, at, n - 1);
      } else {
        EarlierAgrees(g, a, b, roots, at, bt, n - 1);
      }
      assert a[..n] == a[..n-1] + [a[n-1]] && b[..n] == b[..n-1] + [b[n-1]];
    }
  }

  /** The items without parents are those that the answer begins with. */
  lemma RootsFirst(g: Children, answer: seq<Node>, roots: nat, at: seq<(nat, nat)>, k: nat)
    requires InQueueOrder(g, answer, roots, at) && k < |answer|
    ensures k < roots <==> forall q :: !Edge(g, q, answer[k])
  {
    if k >= roots {
      var f, p := at[k-roots].0, at[k-roots].1;
      assert FreedAt(g, answer, roots + (k - roots), f, p);
      assert Edge(g, answer[f], answer[k]);
    }
  }

  /** Answers for the same dictionaries that begin with the same items without parents are the same. */
  lemma AnswerDetermined(g: Children, v: set<Node>, a: seq<Node>, b: seq<Node>, roots: nat, at: seq<(nat, nat)>,
                         bt: seq<(nat, nat)>)
    requires InDepthOrder(g, v, a) && InDepthOrder(g, v, b)
    requires InQueueOrder(g, a, roots, at) && InQueueOrder(g, b, roots, bt) && a[..roots] == b[..roots]
    ensures a == b
  {
    SameItems(a, b);
    AgreeUpTo(g, a, b, roots, at, bt, |a|);
    assert a[..|a|] == a && b[..|b|] == b;
  }

  // ---------- an example

  lemma OneMorePair(pairs: seq<(Node, Node)>, g: Children, a: Node, b: Node, more: seq<(Node, Node)>, kids: seq<Node>)
    requires GraphOf(pairs) == g && more == pairs + [(a, b)] && kids == ChildList(g, a) + [b]
    ensures GraphOf(more) == g[a := kids]
  {
    GraphOfStep(pairs, a, b);
  }

  /** The pairs (1, 2), (3, 4), (5, 6), (1, 3), (1, 5), (1, 6), (2, 5). */
  ghost predicate Example(n: seq<Node>, ps: seq<(Node, Node)>) {
    && |n| == 7 && NoDup(n)
    && ps == [(n[1], n[2]), (n[3], n[4]), (n[5], n[6]), (n[1], n[3]), (n[1], n[5]), (n[1], n[6]), (n[2], n[5])]
  }

  lemma ExampleStart(n: seq<Node>, ps: seq<(Node, Node)>)
    requires Example(n, ps)
    ensures GraphOf(ps[..3]) == map[n[1] := [n[2]], n[3] := [n[4]], n[5] := [n[6]]]
  {
    assert GraphOf(ps[..0]) == map[];
    OneMorePair(ps[..0], map[], n[1], n[2], ps[..1], [n[2]]);
    OneMorePair(ps[..1], map[n[1] := [n[2]]], n[3], n[4], ps[..2], [n[4]]);
    OneMorePair(ps[..2], map[n[1] := [n[2]], n[3] := [n[4]]], n[5], n[6], ps[..3], [n[6]]);
  }

  lemma ExampleMiddle(n: seq<Node>, ps: seq<(Node, Node)>, g: Children)
    requires Example(n, ps) && g == GraphOf(ps[..3]) && n[1] in g && g[n[1]] == [n[2]]
    ensures GraphOf(ps[..5]) == g[n[1] := [n[2], n[3], n[5]]]
  {
    OneMorePair(ps[..3], g, n[1], n[3], ps[..4], [n[2], n[3]]);
    var g4 := g[n[1] := [n[2], n[3]]];
    OneMorePair(ps[..4], g4, n[1], n[5], ps[..5], [n[2], n[3], n[5]]);
    assert g4[n[1] := [n[2], n[3], n[5]]] == g[n[1] := [n[2], n[3], n[5]]];
  }

  lemma ExampleEnd(n: seq<Node>, ps: seq<(Node, Node)>, g: Children)
    requires Example(n, ps) && g == GraphOf(ps[..5]) && n[1] in g && g[n[1]] == [n[2], n[3], n[5]] && n[2] !in g
    ensures GraphOf(ps) == g[n[1] := [n[2], n[3], n[5], n[6]]][n[2] := [n[5]]]
  {
    OneMorePair(ps[..5], g, n[1], n[6], ps[..6], [n[2], n[3], n[5], n[6]]);
    OneMorePair(ps[..6], g[n[1] := [n[2], n[3], n[5], n[6]]], n[2], n[5], ps, [n[5]]);
  }

  lemma ExampleGraph(n: seq<Node>, ps: seq<(Node, Node)>)
    requires Example(n, ps)
    ensures GraphOf(ps) == map[n[1] := [n[2], n[3], n[5], n[6]], n[2] := [n[5]], n[3] := [n[4]], n[5] := [n[6]]]
  {
    ExampleStart(n, ps);
    ExampleMiddle(n, ps, GraphOf(ps[..3]));
    ExampleEnd(n, ps, GraphOf(ps[..5]));
  }

  lemma ExampleAnswer(n: seq<Node>, g: Children)
    requires |n| == 7 && NoDup(n)
    requires g == map[n[1] := [n[2], n[3], n[5], n[6]], n[2] := [n[5]], n[3] := [n[4]], n[5] := [n[6]]]
    ensures InQueueOrder(g, [n[1], n[2], n[3], n[5], n[4], n[6]], 1, [(0, 0), (0, 1), (1, 0), (2, 0), (3, 0)])
  {
    var a := [n[1], n[2], n[3], n[5], n[4], n[6]];
    assert FreedAt(g, a, 1, 0, 0);
    assert FreedAt(g, a, 2, 0, 1);
    assert FreedAt(g, a, 3, 1, 0);
    assert FreedAt(g, a, 4, 2, 0);
    assert FreedAt(g, a, 5, 3, 0);
  }

  lemma NotBehind(g: Children, x: Node)
    requires forall p :: Edge(g, p, x) ==> !BehindCycle(g, p)
    ensures !BehindCycle(g, x)
  {
    if BehindCycle(g, x) {
      var p := ParentBehindCycle(g, x);
    }
  }

  lemma ExampleAcyclic(n: seq<Node>, g: Children)
    requires |n| == 7 && NoDup(n)
    requires g == map[n[1] := [n[2], n[3], n[5], n[6]], n[2] := [n[5]], n[3] := [n[4]], n[5] := [n[6]]]
    ensures forall i :: 1 <= i <= 6 ==> !BehindCycle(g, n[i])
  {
    NotBehind(g, n[1]);
    NotBehind(g, n[2]);
    NotBehind(g, n[3]);
    NotBehind(g, n[4]);
    NotBehind(g, n[5]);
    NotBehind(g, n[6]);
  }

  ghost predicate IsChild(g: Children, x: Node) {
    exists q :: Edge(g, q, x)
  }

  lemma OneRoot(g: Children, answer: seq<Node>, roots: nat, at: seq<(nat, nat)>, r: Node)
    requires InQueueOrder(g, answer, roots, at) && NoDup(answer) && r in answer && !IsChild(g, r)
    requires forall x :: x in answer && x != r ==> IsChild(g, x)
    ensures roots == 1 && answer[0] == r
  {
    var k :| 0 <= k < |answer| && answer[k] == r;
    RootsFirst(g, answer, roots, at, k);
    forall j | 0 <= j < roots ensures answer[j] == r {
      RootsFirst(g, answer, roots, at, j);
      assert answer[j] in answer;
    }
    if roots > 1 {
      TwoDiffer(answer, roots, r);
    }
  }

  lemma TwoDiffer(s: seq<Node>, n: nat, r: Node)
    requires NoDup(s) && 1 < n <= |s|
    ensures exists j :: 0 <= j < n && s[j] != r
  {
    assert s[0] != s[1];
  }

  lemma ExampleItems(n: seq<Node>, ps: seq<(Node, Node)>)
    requires Example(n, ps)
    ensures Items(ps) == {n[1], n[2], n[3], n[4], n[5], n[6]}
  {
    forall x ensures x in Items(ps) <==> x in {n[1], n[2], n[3], n[4], n[5], n[6]} {
      assert ps[0] in ps && ps[1] in ps && ps[2] in ps && ps[3] in ps;
    }
  }

  lemma ExampleParents(n: seq<Node>, g: Children)
    requires |n| == 7 && NoDup(n)
    requires g == map[n[1] := [n[2], n[3], n[5], n[6]], n[2] := [n[5]], n[3] := [n[4]], n[5] := [n[6]]]
    ensures !IsChild(g, n[1]) && forall i :: 2 <= i <= 6 ==> IsChild(g, n[i])
  {
    assert Edge(g, n[1], n[2]) && Edge(g, n[1], n[3]) && Edge(g, n[3], n[4]) && Edge(g, n[1], n[5])
        && Edge(g, n[1], n[6]);
  }

  lemma AllButStuck(g: Children, v: set<Node>, n: seq<Node>, answer: seq<Node>)
    requires |n| == 7 && v == {n[1], n[2], n[3], n[4], n[5], n[6]} && Lists(answer, v - Stuck(g, v))
    requires forall i :: 1 <= i <= 6 ==> !BehindCycle(g, n[i])
    ensures forall x :: x in answer <==> x in [n[1], n[2], n[3], n[5], n[4], n[6]]
  {
    assert Stuck(g, v) == {};
  }

  lemma ExampleFromGraph(n: seq<Node>, g: Children, v: set<Node>, answer: seq<Node>, roots: nat, at: seq<(nat, nat)>,
                         want: seq<Node>)
    requires |n| == 7 && NoDup(n) && v == {n[1], n[2], n[3], n[4], n[5], n[6]}
    requires g == map[n[1] := [n[2], n[3], n[5], n[6]], n[2] := [n[5]], n[3] := [n[4]], n[5] := [n[6]]]
    requires Lists(answer, v - Stuck(g, v)) && InQueueOrder(g, answer, roots, at)
    requires want == [n[1], n[2], n[3], n[5], n[4], n[6]]
    ensures answer == want
  {
    ExampleAcyclic(n, g);
    AllButStuck(g, v, n, answer);
    ExampleParents(n, g);
    ExampleAnswer(n, g);
    assert n[1] in want && NoDup(want);
    OneRoot(g, answer, roots, at, n[1]);
    SameItems(answer, want);
    assert answer[..1] == want[..1];
    AgreeUpTo(g, answer, want, 1, at, [(0, 0), (0, 1), (1, 0), (2, 0), (3, 0)], 6);
    assert answer[..6] == answer && want[..6] == want;
  }

  /** On the pairs of the example, topsort's answer is 1, 2, 3, 5, 4, 6. */
  lemma ExampleSorted(n: seq<Node>, ps: seq<(Node, Node)>, answer: seq<Node>, roots: nat, at: seq<(nat, nat)>)
    requires Example(n, ps)
    requires InDepthOrder(GraphOf(ps), Items(ps), answer) && InQueueOrder(GraphOf(ps), answer, roots, at)
    ensures answer == [n[1], n[2], n[3], n[5], n[4], n[6]]
  {
    ExampleGraph(n, ps);
    ExampleItems(n, ps);
    ExampleFromGraph(n, GraphOf(ps), Items(ps), answer, roots, at, [n[1], n[2], n[3], n[5], n[4], n[6]]);
  }
}
