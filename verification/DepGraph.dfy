/**
 Directed graphs given as a parent -> children dictionary, the input form of every function in
 bindings/python/topsort.py, and the notions their results are measured against:
 walks, longest incoming walks ("depth"), cycles, and nodes behind a cycle.
 */
module DepGraph {
  import opened Sequences

  /** Any hashable item; the algorithms only ever compare items for equality. */
  type Node(==, !new)

  /** parent -> list of children. A child may be listed several times and need not be a key. */
  type Children = map<Node, seq<Node>>

  ghost predicate Edge(g: Children, a: Node, b: Node) {
    a in g && b in g[a]
  }

  /** A nonempty sequence of nodes in which each one is a child of its predecessor. */
  ghost predicate Walk(g: Children, w: seq<Node>) {
    |w| >= 1 && forall i :: 0 <= i < |w| - 1 ==> Edge(g, w[i], w[i+1])
  }

  ghost predicate ClosedWalk(g: Children, c: seq<Node>) {
    Walk(g, c) && |c| >= 2 && c[0] == c[|c|-1]
  }

  ghost predicate Cyclic(g: Children) {
    exists c :: ClosedWalk(g, c)
  }

  ghost predicate WalkBetween(g: Children, w: seq<Node>, a: Node, b: Node) {
    Walk(g, w) && w[0] == a && w[|w|-1] == b
  }

  ghost predicate Reaches(g: Children, a: Node, b: Node) {
    exists w :: WalkBetween(g, w, a, b)
  }

  /** x lies on a cycle or can be reached from one. */
  ghost predicate BehindCycle(g: Children, x: Node) {
    exists c :: ClosedWalk(g, c) && Reaches(g, c[0], x)
  }

  /** w is a walk of k edges that ends in x. */
  ghost predicate WalkInto(g: Children, w: seq<Node>, x: Node, k: nat) {
    Walk(g, w) && |w| == k + 1 && w[k] == x
  }

  /** Some walk of exactly k edges ends in x. */
  ghost predicate Arrives(g: Children, x: Node, k: nat) {
    exists w :: WalkInto(g, w, x, k)
  }

  /** The longest walk into x has exactly k edges. */
  ghost predicate DepthIs(g: Children, x: Node, k: nat) {
    Arrives(g, x, k) && !Arrives(g, x, k + 1)
  }

  // ---------- walks into a node

  lemma ArrivesZero(g: Children, x: Node)
    ensures Arrives(g, x, 0)
  {
    assert WalkInto(g, [x], x, 0);
  }

  lemma ArrivesStep(g: Children, p: Node, x: Node, k: nat)
    requires Edge(g, p, x) && Arrives(g, p, k)
    ensures Arrives(g, x, k + 1)
  {
    var w :| WalkInto(g, w, p, k);
    assert WalkInto(g, w + [x], x, k + 1);
  }

  lemma ArrivesBack(g: Children, x: Node, k: nat) returns (p: Node)
    requires Arrives(g, x, k + 1)
    ensures Edge(g, p, x) && Arrives(g, p, k)
  {
    var w :| WalkInto(g, w, x, k + 1);
    p := w[k];
    assert Edge(g, w[k], w[k+1]);
    assert WalkInto(g, w[..k+1], p, k);
  }

  lemma ArrivesShorter(g: Children, x: Node, k: nat, j: nat)
    requires Arrives(g, x, k) && j <= k
    ensures Arrives(g, x, j)
  {
    var w :| WalkInto(g, w, x, k);
    var v := w[k-j..];
    forall i | 0 <= i < |v| - 1 ensures Edge(g, v[i], v[i+1]) {
      assert Edge(g, w[k-j+i], w[k-j+i+1]);
    }
    assert WalkInto(g, v, x, j);
  }

  lemma DepthUnique(g: Children, x: Node, j: nat, k: nat)
    requires DepthIs(g, x, j) && DepthIs(g, x, k)
    ensures j == k
  {
    if j < k {
      ArrivesShorter(g, x, k, j + 1);
    } else if k < j {
      ArrivesShorter(g, x, j, k + 1);
    }
  }

  /** A node one of whose parents has depth k, and none a longer walk, has depth k + 1. */
  lemma DepthStep(g: Children, p: Node, x: Node, k: nat)
    requires Edge(g, p, x) && DepthIs(g, p, k)
    requires forall q :: Edge(g, q, x) ==> !Arrives(g, q, k + 1)
    ensures DepthIs(g, x, k + 1)
  {
    ArrivesStep(g, p, x, k);
    if Arrives(g, x, k + 2) {
      var q := ArrivesBack(g, x, k + 1);
    }
  }

  lemma DepthOfParent(g: Children, p: Node, x: Node, k: nat)
    requires Edge(g, p, x) && DepthIs(g, x, k)
    ensures k > 0 && !Arrives(g, p, k)
  {
    if Arrives(g, p, k) {
      ArrivesStep(g, p, x, k);
    }
    if k == 0 {
      ArrivesZero(g, p);
    }
  }

  // ---------- nodes behind a cycle: exactly those with arbitrarily long walks into them

  lemma {:induction false} ArrivesOnCycle(g: Children, c: seq<Node>, i: nat, k: nat)
    requires ClosedWalk(g, c) && i < |c|
    ensures Arrives(g, c[i], k)
    decreases k
  {
    if k == 0 {
      ArrivesZero(g, c[i]);
    } else {
      var j := if i == 0 then |c| - 1 else i;
      ArrivesOnCycle(g, c, j - 1, k - 1);
      assert Edge(g, c[j-1], c[j-1+1]);
      ArrivesStep(g, c[j-1], c[i], k - 1);
    }
  }

  lemma {:induction false} ArrivesAlong(g: Children, c: seq<Node>, w: seq<Node>, i: nat, k: nat)
    requires ClosedWalk(g, c) && Walk(g, w) && w[0] == c[0] && i < |w|
    ensures Arrives(g, w[i], k)
    decreases k
  {
    if k == 0 {
      ArrivesZero(g, w[i]);
    } else if i == 0 {
      ArrivesOnCycle(g, c, 0, k);
    } else {
      ArrivesAlong(g, c, w, i - 1, k - 1);
      assert Edge(g, w[i-1], w[i-1+1]);
      ArrivesStep(g, w[i-1], w[i], k - 1);
    }
  }

  lemma BehindCycleArrives(g: Children, x: Node, k: nat)
    requires BehindCycle(g, x)
    ensures Arrives(g, x, k)
  {
    var c :| ClosedWalk(g, c) && Reaches(g, c[0], x);
    var w :| WalkBetween(g, w, c[0], x);
    ArrivesAlong(g, c, w, |w| - 1, k);
  }

  ghost predicate HasParentIn(g: Children, r: set<Node>, x: Node) {
    exists p :: p in r && Edge(g, p, x)
  }

  ghost predicate NoSource(g: Children, r: set<Node>) {
    forall x {:trigger HasParentIn(g, r, x)} :: x in r ==> HasParentIn(g, r, x)
  }

  /** Every node of r has a parent in r: then a walk of any length inside r ends in each of them. */
  lemma {:induction false} WalkInside(g: Children, r: set<Node>, x: Node, k: nat) returns (w: seq<Node>)
    requires x in r && NoSource(g, r)
    ensures WalkInto(g, w, x, k) && forall y :: y in w ==> y in r
    decreases k
  {
    if k == 0 {
      w := [x];
    } else {
      assert HasParentIn(g, r, x);
      var p :| p in r && Edge(g, p, x);
      var v := WalkInside(g, r, p, k - 1);
      w := v + [x];
    }
  }

  /** A walk with a repeated node ends behind a cycle. */
  lemma RepeatedNode(g: Children, w: seq<Node>, i: nat, j: nat)
    requires Walk(g, w) && i < j < |w| && w[i] == w[j]
    ensures BehindCycle(g, w[|w|-1])
  {
    var c, v := w[i..j+1], w[i..];
    forall m | 0 <= m < |c| - 1 ensures Edge(g, c[m], c[m+1]) {
      assert Edge(g, w[i+m], w[i+m+1]);
    }
    forall m | 0 <= m < |v| - 1 ensures Edge(g, v[m], v[m+1]) {
      assert Edge(g, w[i+m], w[i+m+1]);
    }
    assert ClosedWalk(g, c);
    assert WalkBetween(g, v, c[0], w[|w|-1]);
  }

  lemma RepeatsWithin(g: Children, w: seq<Node>, r: set<Node>)
    requires Walk(g, w) && |w| > |r| && forall x :: x in w ==> x in r
    ensures BehindCycle(g, w[|w|-1])
  {
    if NoDup(w) {
      NoDupFits(w, r);
    } else {
      var i, j :| 0 <= i < j < |w| && w[i] == w[j];
      RepeatedNode(g, w, i, j);
    }
  }

  lemma StuckBehindCycle(g: Children, r: set<Node>, x: Node)
    requires x in r && NoSource(g, r)
    ensures BehindCycle(g, x)
  {
    var w := WalkInside(g, r, x, |r|);
    RepeatsWithin(g, w, r);
  }

  /** Being behind a cycle is the same as having walks of every length leading in. */
  lemma BehindCycleIffUnbounded(g: Children, v: set<Node>, x: Node)
    requires x in v && forall a, b :: Edge(g, a, b) ==> a in v && b in v
    ensures BehindCycle(g, x) <==> forall k: nat :: Arrives(g, x, k)
  {
    if BehindCycle(g, x) {
      forall k: nat ensures Arrives(g, x, k) { BehindCycleArrives(g, x, k); }
    }
    if forall k: nat :: Arrives(g, x, k) {
      assert Arrives(g, x, |v|);
      var w :| WalkInto(g, w, x, |v|);
      forall y | y in w ensures y in v {
        var i :| 0 <= i < |w| && w[i] == y;
        if i < |w| - 1 { assert Edge(g, w[i], w[i+1]); }
      }
      RepeatsWithin(g, w, v);
    }
  }

  lemma CyclicHasStuckNode(g: Children)
    requires Cyclic(g)
    ensures exists x :: x in g && BehindCycle(g, x)
  {
    var c :| ClosedWalk(g, c);
    assert WalkBetween(g, [c[0]], c[0], c[0]);
    assert Edge(g, c[0], c[0+1]);
    assert c[0] in g && BehindCycle(g, c[0]);
  }

  // ---------- in-degrees

  /** How many entries of all child lists together are x. */
  ghost function InDegree(g: Children, x: Node): nat
    decreases |g|
  {
    if g == map[] then 0
    else
      var p :| p in g;
      multiset(g[p])[x] + InDegree(g - {p}, x)
  }

  lemma {:induction false} InDegreeRemove(g: Children, p: Node, x: Node)
    requires p in g
    ensures InDegree(g, x) == multiset(g[p])[x] + InDegree(g - {p}, x)
    decreases |g|
  {
    var q :| q in g && InDegree(g, x) == multiset(g[q])[x] + InDegree(g - {q}, x);
    if p != q {
      InDegreeRemove(g - {q}, p, x);
      InDegreeRemove(g - {p}, q, x);
      assert g - {q} - {p} == g - {p} - {q};
    }
  }

  lemma {:induction false} InDegreeZero(g: Children, x: Node)
    ensures InDegree(g, x) == 0 <==> forall p :: !Edge(g, p, x)
    decreases |g|
  {
    if g != map[] {
      var q :| q in g;
      InDegreeRemove(g, q, x);
      InDegreeZero(g - {q}, x);
      assert multiset(g[q])[x] == 0 <==> !Edge(g, q, x);
      forall p | p != q ensures Edge(g, p, x) <==> Edge(g - {q}, p, x) {}
    }
  }

  /** parents -> number of parents, in agreement with the child lists. */
  ghost predicate Consistent(np: map<Node, int>, g: Children) {
    && g.Keys <= np.Keys
    && (forall a, b :: Edge(g, a, b) ==> b in np)
    && (forall x :: x in np ==> np[x] == InDegree(g, x))
  }

  // ---------- what Kahn's algorithm leaves behind

  ghost function Stuck(g: Children, v: set<Node>): set<Node> {
    set x | x in v && BehindCycle(g, x)
  }

  ghost function Restrict(g: Children, r: set<Node>): Children {
    map p | p in g && p in r :: g[p]
  }
}
