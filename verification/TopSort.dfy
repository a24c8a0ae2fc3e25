/**
 bindings/python/topsort.py: `topsort` (Kahn's algorithm over in-place parent counters and a work
 list that grows while it is iterated) and `topsort_levels` (the same graph peeled level by level).
 */
module TopSort {
  import opened DepGraph
  import opened Sequences

  type Counts = map<Node, int>

  datatype SortOutcome =
    | Sorted(answer: seq<Node>)
    | CycleError(answer: seq<Node>, numParents: Counts, children: Children)

  datatype LevelsOutcome =
    | EndOfLevels
    | LevelsCycleError(numParents: Counts, children: Children)

  // ---------- the dictionaries built from a list of (parent, child) pairs

  ghost function Items(pairs: seq<(Node, Node)>): set<Node> {
    (set p | p in pairs :: p.0) + (set p | p in pairs :: p.1)
  }

  /** The children listed for p, in pair order. */
  ghost function KidsOf(pairs: seq<(Node, Node)>, p: Node): seq<Node> {
    if pairs == [] then []
    else
      var last := pairs[|pairs|-1];
      KidsOf(pairs[..|pairs|-1], p) + (if last.0 == p then [last.1] else [])
  }

  ghost function GraphOf(pairs: seq<(Node, Node)>): Children {
    map p | p in (set q | q in pairs :: q.0) :: KidsOf(pairs, p)
  }

  lemma {:induction false} KidsOfMember(pairs: seq<(Node, Node)>, p: Node, c: Node)
    ensures c in KidsOf(pairs, p) <==> (p, c) in pairs
  {
    if pairs != [] {
      KidsOfMember(pairs[..|pairs|-1], p, c);
      assert pairs == pairs[..|pairs|-1] + [pairs[|pairs|-1]];
    }
  }

  /** The graph has exactly the given pairs as its edges. */
  lemma GraphOfEdges(pairs: seq<(Node, Node)>, a: Node, b: Node)
    ensures Edge(GraphOf(pairs), a, b) <==> (a, b) in pairs
  {
    KidsOfMember(pairs, a, b);
  }

  function ChildList(g: Children, p: Node): seq<Node> {
    if p in g then g[p] else []
  }

  /** b is one more child of a, the last in its list. */
  function AddChild(g: Children, a: Node, b: Node): Children {
    g[a := ChildList(g, a) + [b]]
  }

  lemma AddChildInDegree(g: Children, a: Node, b: Node, x: Node)
    ensures InDegree(AddChild(g, a, b), x) == InDegree(g, x) + (if x == b then 1 else 0)
  {
    var h := AddChild(g, a, b);
    InDegreeRemove(h, a, x);
    assert h - {a} == g - {a};
    if a in g {
      InDegreeRemove(g, a, x);
    } else {
      assert g - {a} == g;
    }
  }

  lemma ItemsStep(pairs: seq<(Node, Node)>, a: Node, b: Node)
    ensures Items(pairs + [(a, b)]) == Items(pairs) + {a, b}
  {
    var more := pairs + [(a, b)];
    assert more[|pairs|] == (a, b);
    assert forall p :: p in more <==> p in pairs || p == (a, b);
  }

  lemma GraphOfStep(pairs: seq<(Node, Node)>, a: Node, b: Node)
    ensures GraphOf(pairs + [(a, b)]) == AddChild(GraphOf(pairs), a, b)
  {
    var more, g := pairs + [(a, b)], GraphOf(pairs);
    assert more[..|pairs|] == pairs && more[|pairs|] == (a, b);
    forall p ensures p in GraphOf(more) <==> p in g || p == a {
      assert (a, b) in more;
      assert forall q :: q in more <==> q in pairs || q == (a, b);
    }
    forall p ensures KidsOf(pairs, p) == ChildList(g, p) {
      if p !in g && KidsOf(pairs, p) != [] {
        KidsOfMember(pairs, p, KidsOf(pairs, p)[0]);
      }
    }
    forall p | p in g || p == a ensures GraphOf(more)[p] == AddChild(g, a, b)[p] {
      assert KidsOf(more, p) == KidsOf(pairs, p) + (if a == p then [b] else []);
    }
  }

  lemma ConsistentStep(np: Counts, g: Children, a: Node, b: Node, np': Counts)
    requires Consistent(np, g)
    requires np'.Keys == np.Keys + {a, b}
    requires forall x :: x in np' ==> np'[x] == (if x in np then np[x] else 0) + (if x == b then 1 else 0)
    ensures Consistent(np', AddChild(g, a, b))
  {
    var g' := AddChild(g, a, b);
    assert forall x, y :: Edge(g', x, y) <==> Edge(g, x, y) || (x, y) == (a, b);
    forall x | x in np' ensures np'[x] == InDegree(g', x) {
      AddChildInDegree(g, a, b, x);
      InDegreeZero(g, x);
    }
  }

  // ---------- what the dictionaries say, entry by entry

  /** ks are the positions of the pairs with parent p, in order. */
  ghost predicate PairsFrom(pairs: seq<(Node, Node)>, p: Node, ks: seq<nat>) {
    Ascending(ks) && forall k: nat :: k in ks <==> k < |pairs| && pairs[k].0 == p
  }

  /** The children of the pairs at the given positions. */
  ghost predicate ChildrenAt(pairs: seq<(Node, Node)>, ks: seq<nat>, kids: seq<Node>) {
    |kids| == |ks| && forall i :: 0 <= i < |ks| ==> ks[i] < |pairs| && kids[i] == pairs[ks[i]].1
  }

  /** The list of p holds the child of every pair with parent p, in the order of the pairs; and p is a key just if
      there is such a pair. */
  ghost predicate ListsInPairOrder(pairs: seq<(Node, Node)>, g: Children, p: Node) {
    exists ks :: PairsFrom(pairs, p, ks) && ChildrenAt(pairs, ks, ChildList(g, p)) && (p in g <==> ks != [])
  }

  lemma {:induction false} KidsInPairOrder(pairs: seq<(Node, Node)>, p: Node) returns (ks: seq<nat>)
    ensures PairsFrom(pairs, p, ks) && ChildrenAt(pairs, ks, KidsOf(pairs, p))
  {
    ks := [];
    if pairs != [] {
      var n := |pairs| - 1;
      ks := KidsInPairOrder(pairs[..n], p);
      if pairs[n].0 == p {
        assert Within(ks, n) by {
          forall i | 0 <= i < |ks| ensures ks[i] < n { assert ks[i] in ks; }
        }
        AscendingMore(ks, n);
        ks := ks + [n];
      }
    }
  }

  lemma ListedInPairOrder(pairs: seq<(Node, Node)>, p: Node)
    ensures ListsInPairOrder(pairs, GraphOf(pairs), p)
  {
    var g := GraphOf(pairs);
    var ks := KidsInPairOrder(pairs, p);
    if ks != [] {
      assert ks[0] in ks && pairs[ks[0]] in pairs;
    }
    if p in g {
      var i :| 0 <= i < |pairs| && pairs[i].0 == p;
      assert i in ks;
    }
    assert ChildList(g, p) == KidsOf(pairs, p);
  }

  /** The pairs with child x whose parent is in r. */
  ghost function PairsInto(pairs: seq<(Node, Node)>, x: Node, r: set<Node>): set<int> {
    set i | 0 <= i < |pairs| && pairs[i].1 == x && pairs[i].0 in r
  }

  lemma RestrictAddChild(g: Children, a: Node, b: Node, r: set<Node>)
    ensures Restrict(AddChild(g, a, b), r) == if a in r then AddChild(Restrict(g, r), a, b) else Restrict(g, r)
  {
  }

  /** A parent count is a number of pairs, repeated ones included. */
  lemma {:induction false} ParentCount(pairs: seq<(Node, Node)>, x: Node, r: set<Node>)
    ensures InDegree(Restrict(GraphOf(pairs), r), x) == |PairsInto(pairs, x, r)|
  {
    if pairs == [] {
      assert GraphOf(pairs) == map[] && Restrict(map[], r) == map[];
      assert PairsInto(pairs, x, r) == {};
    } else {
      var n := |pairs| - 1;
      var (a, b) := pairs[n];
      ParentCount(pairs[..n], x, r);
      assert pairs == pairs[..n] + [(a, b)];
      GraphOfStep(pairs[..n], a, b);
      RestrictAddChild(GraphOf(pairs[..n]), a, b, r);
      AddChildInDegree(Restrict(GraphOf(pairs[..n]), r), a, b, x);
      PairsIntoMore(pairs, x, r);
    }
  }

  lemma PairsIntoMore(pairs: seq<(Node, Node)>, x: Node, r: set<Node>)
    requires pairs != []
    ensures var n := |pairs| - 1;
            |PairsInto(pairs, x, r)|
            == |PairsInto(pairs[..n], x, r)| + if pairs[n].1 == x && pairs[n].0 in r then 1 else 0
  {
    var n := |pairs| - 1;
    var more, fewer := PairsInto(pairs, x, r), PairsInto(pairs[..n], x, r);
    assert more == if pairs[n].1 == x && pairs[n].0 in r then fewer + {n} else fewer;
  }

  /** The dictionaries in terms of the pairs: for each item the number of pairs that have it as child, and the
      children in the order of the pairs. */
  ghost predicate SaysPairs(pairs: seq<(Node, Node)>, np: Counts, g: Children) {
    && np.Keys == Items(pairs)
    && (forall x :: x in np ==> np[x] == |PairsInto(pairs, x, Items(pairs))|)
    && (forall p :: ListsInPairOrder(pairs, g, p))
  }

  lemma BuiltSaysPairs(pairs: seq<(Node, Node)>, np: Counts, g: Children)
    requires Built(pairs, np, g)
    ensures SaysPairs(pairs, np, g)
  {
    forall x | x in np ensures np[x] == |PairsInto(pairs, x, Items(pairs))| {
      ParentCount(pairs, x, Items(pairs));
      assert Restrict(g, Items(pairs)) == g;
    }
    forall p ensures ListsInPairOrder(pairs, g, p) {
      ListedInPairOrder(pairs, p);
    }
  }

  ghost predicate Built(pairs: seq<(Node, Node)>, np: Counts, g: Children) {
    np.Keys == Items(pairs) && Consistent(np, g) && g == GraphOf(pairs)
  }

  lemma BuiltStep(pairs: seq<(Node, Node)>, i: nat, np: Counts, g: Children, np': Counts)
    requires i < |pairs| && Built(pairs[..i], np, g)
    requires np'.Keys == np.Keys + {pairs[i].0, pairs[i].1}
    requires forall x :: x in np' ==> np'[x] == (if x in np then np[x] else 0) + (if x == pairs[i].1 then 1 else 0)
    ensures Built(pairs[..i+1], np', AddChild(g, pairs[i].0, pairs[i].1))
  {
    var (a, b) := pairs[i];
    assert pairs[..i+1] == pairs[..i] + [(a, b)];
    ItemsStep(pairs[..i], a, b);
    GraphOfStep(pairs[..i], a, b);
    ConsistentStep(np, g, a, b, np');
  }

  method CountPair(np: Counts, parent: Node, child: Node) returns (np': Counts)
    ensures np'.Keys == np.Keys + {parent, child}
    ensures forall x :: x in np' ==> np'[x] == (if x in np then np[x] else 0) + (if x == child then 1 else 0)
  {
    np' := np;
    if parent !in np' {
      np' := np'[parent := 0];
    }
    if child !in np' {
      np' := np'[child := 0];
    }
    np' := np'[child := np'[child] + 1];
  }

  /** The loop with which topsort and topsort_levels both start. */
  method BuildGraph(pairs: seq<(Node, Node)>) returns (np: Counts, g: Children)
    ensures Built(pairs, np, g) && SaysPairs(pairs, np, g)
  {
    np, g := map[], map[];
    for i := 0 to |pairs|
      invariant Built(pairs[..i], np, g)
    {
      var (parent, child) := pairs[i];
      var np' := CountPair(np, parent, child);
      BuiltStep(pairs, i, np, g, np');
      np, g := np', AddChild(g, parent, child);
    }
    assert pairs[..|pairs|] == pairs;
    BuiltSaysPairs(pairs, np, g);
  }

  // ---------- iterating over a dictionary

  /** The keys of a dictionary, in an order nothing is known about. */
  method KeysInSomeOrder<T(==, !new)>(keys: set<T>) returns (s: seq<T>)
    ensures Lists(s, keys)
  {
    s := [];
    var rest := keys;
    while rest != {}
      invariant rest <= keys && Lists(s, keys - rest)
      decreases rest
    {
      var k :| k in rest;
      s, rest := s + [k], rest - {k};
    }
  }

  function Sources(np: Counts): set<Node> {
    set x | x in np && np[x] == 0
  }

  /** Which of the given items count no parent. */
  ghost function Spent(kids: seq<Node>, np: Counts): set<Node> {
    set x | x in kids && x in np && np[x] == 0
  }

  /** The items that count no parent, in an order nothing is known about. */
  method WithoutParents(np: Counts) returns (s: seq<Node>)
    ensures Lists(s, Sources(np))
  {
    s := KeysInSomeOrder(Sources(np));
  }

  // ---------- one removal step, shared by both algorithms

  /** What is left of (np0, g0) once the items of `done` have been deleted from both dictionaries. */
  ghost predicate Remaining(np0: Counts, g0: Children, done: set<Node>, np: Counts, g: Children) {
    && done <= np0.Keys
    && np.Keys == np0.Keys - done
    && g == Restrict(g0, np.Keys)
    && Consistent(np, g)
  }

  /** The counts are too high by the entries of `kids`, the child list of an item just deleted. */
  ghost predicate Owed(np: Counts, g: Children, kids: seq<Node>) {
    && g.Keys <= np.Keys
    && (forall a, b :: Edge(g, a, b) ==> b in np)
    && (forall c :: c in kids ==> c in np)
    && (forall x :: x in np ==> np[x] == InDegree(g, x) + multiset(kids)[x])
  }

  lemma RemoveSource(np: Counts, g: Children, p: Node)
    requires Consistent(np, g) && p in np && np[p] == 0
    ensures Owed(np - {p}, g - {p}, ChildList(g, p))
  {
    InDegreeZero(g, p);
    var g' := g - {p};
    forall a, b | Edge(g', a, b) ensures b in np - {p} {
      assert Edge(g, a, b);
    }
    forall c | c in ChildList(g, p) ensures c in np - {p} {
      assert Edge(g, p, c);
    }
    forall x | x in np - {p} ensures np[x] == InDegree(g', x) + multiset(ChildList(g, p))[x] {
      if p in g {
        InDegreeRemove(g, p, x);
      } else {
        assert g' == g;
      }
    }
  }

  lemma OwedNothing(np: Counts, g: Children)
    requires Owed(np, g, [])
    ensures Consistent(np, g)
  {
  }

  lemma PayOne(np: Counts, g: Children, kids: seq<Node>, j: nat)
    requires j < |kids| && Owed(np, g, kids[j..])
    ensures kids[j] in np && np[kids[j]] > 0
    ensures Owed(np[kids[j] := np[kids[j]] - 1], g, kids[j+1..])
  {
    assert kids[j..] == [kids[j]] + kids[j+1..];
    assert multiset(kids[j..]) == multiset{kids[j]} + multiset(kids[j+1..]);
  }

  lemma RemainingStep(np0: Counts, g0: Children, done: set<Node>, np: Counts, g: Children, p: Node,
                      np': Counts)
    requires Remaining(np0, g0, done, np, g) && p in np
    requires np'.Keys == np.Keys - {p} && Consistent(np', g - {p})
    ensures Remaining(np0, g0, done + {p}, np', g - {p})
  {
    assert np0.Keys - (done + {p}) == np0.Keys - done - {p};
  }

  /** An item left over with a positive count has a parent that is left over too. */
  lemma LeftoverParent(np0: Counts, g0: Children, done: set<Node>, np: Counts, g: Children, x: Node)
    requires Remaining(np0, g0, done, np, g) && x in np && np[x] != 0
    ensures HasParentIn(g0, np.Keys, x)
  {
    InDegreeZero(g, x);
    var p :| Edge(g, p, x);
    assert p in np.Keys && Edge(g0, p, x);
  }

  lemma LeftoverIsStuck(np0: Counts, g0: Children, done: set<Node>, np: Counts, g: Children)
    requires Remaining(np0, g0, done, np, g)
    requires forall x :: x in np ==> np[x] != 0
    ensures forall x :: x in np ==> BehindCycle(g0, x)
  {
    forall x | x in np.Keys ensures HasParentIn(g0, np.Keys, x) {
      LeftoverParent(np0, g0, done, np, g, x);
    }
    forall x | x in np ensures BehindCycle(g0, x) {
      StuckBehindCycle(g0, np.Keys, x);
    }
  }

  // ---------- topsort

  /** The items of freed, in its order, have their last entries among the first j of kids at these places. */
  ghost predicate LastEntries(kids: seq<Node>, j: nat, freed: seq<Node>, at: seq<nat>)
    requires j <= |kids|
  {
    && |at| == |freed| && Ascending(at) && Within(at, j)
    && forall i :: 0 <= i < |freed| ==> kids[at[i]] == freed[i] && freed[i] !in kids[at[i]+1..]
  }

  ghost predicate InPlaces(kids: seq<Node>, j: nat, freed: seq<Node>)
    requires j <= |kids|
  {
    exists at :: LastEntries(kids, j, freed, at)
  }

  /** The inner loop after j entries. */
  ghost predicate Knocked(kids: seq<Node>, j: nat, np: Counts, g: Children, freed: seq<Node>)
    requires j <= |kids|
  {
    && Owed(np, g, kids[j..])
    && (forall x :: x in kids[..j] ==> x in np)
    && Lists(freed, Spent(kids[..j], np))
    && InPlaces(kids, j, freed)
  }

  lemma KnockedStart(kids: seq<Node>, np: Counts, g: Children)
    requires Owed(np, g, kids)
    ensures Knocked(kids, 0, np, g, [])
  {
    assert kids[0..] == kids && kids[..0] == [];
    assert LastEntries(kids, 0, [], []);
  }

  lemma KnockNext(kids: seq<Node>, j: nat, np: Counts, g: Children, freed: seq<Node>)
    requires j < |kids| && Knocked(kids, j, np, g, freed)
    ensures kids[j] in np
    ensures var np' := np[kids[j] := np[kids[j]] - 1];
            && np'.Keys == np.Keys
            && (np'[kids[j]] == 0 ==> Knocked(kids, j + 1, np', g, freed + [kids[j]]))
            && (np'[kids[j]] != 0 ==> Knocked(kids, j + 1, np', g, freed))
  {
    KnockStep(np, g, kids, j, freed);
    var np' := np[kids[j] := np[kids[j]] - 1];
    if np'[kids[j]] == 0 {
      NoMoreEntries(np', g, kids[j+1..], kids[j]);
      NextEntry(kids, j, freed);
    } else {
      NoEntry(kids, j, freed);
    }
  }

  lemma NoEntry(kids: seq<Node>, j: nat, freed: seq<Node>)
    requires j < |kids| && InPlaces(kids, j, freed)
    ensures InPlaces(kids, j + 1, freed)
  {
    var at :| LastEntries(kids, j, freed, at);
    assert LastEntries(kids, j + 1, freed, at);
  }

  lemma NextEntry(kids: seq<Node>, j: nat, freed: seq<Node>)
    requires j < |kids| && InPlaces(kids, j, freed) && kids[j] !in kids[j+1..]
    ensures InPlaces(kids, j + 1, freed + [kids[j]])
  {
    var at :| LastEntries(kids, j, freed, at);
    AscendingMore(at, j);
    assert LastEntries(kids, j + 1, freed + [kids[j]], at + [j]);
  }

  /** The inner loop of topsort: lower the counts; `freed` is what it appends to the answer, in the order of the
      last entries in kids. */
  method KnockDown(kids: seq<Node>, np: Counts, ghost g: Children) returns (np': Counts, freed: seq<Node>)
    requires Owed(np, g, kids)
    ensures np'.Keys == np.Keys && Consistent(np', g)
    ensures Lists(freed, Spent(kids, np'))
    ensures InPlaces(kids, |kids|, freed)
  {
    np', freed := np, [];
    KnockedStart(kids, np, g);
    for j := 0 to |kids|
      invariant np'.Keys == np.Keys && Knocked(kids, j, np', g, freed)
    {
      var child := kids[j];
      KnockNext(kids, j, np', g, freed);
      np' := np'[child := np'[child] - 1];
      if np'[child] == 0 {
        freed := freed + [child];
      }
    }
    KnockedEnd(kids, np', g, freed);
  }

  lemma KnockedEnd(kids: seq<Node>, np: Counts, g: Children, freed: seq<Node>)
    requires Knocked(kids, |kids|, np, g, freed)
    ensures Consistent(np, g) && Lists(freed, Spent(kids, np)) && InPlaces(kids, |kids|, freed)
  {
    assert kids[|kids|..] == [] && kids[..|kids|] == kids;
    OwedNothing(np, g);
  }

  lemma NoMoreEntries(np: Counts, g: Children, kids: seq<Node>, x: Node)
    requires Owed(np, g, kids) && x in np && np[x] == 0
    ensures x !in kids
  {
    assert multiset(kids)[x] == 0;
  }

  lemma KnockStep(np: Counts, g: Children, kids: seq<Node>, j: nat, freed: seq<Node>)
    requires j < |kids| && Owed(np, g, kids[j..]) && forall x :: x in kids[..j] ==> x in np
    requires Lists(freed, Spent(kids[..j], np))
    ensures kids[j] in np
    ensures var np' := np[kids[j] := np[kids[j]] - 1];
            && np'.Keys == np.Keys && Owed(np', g, kids[j+1..])
            && (forall x :: x in kids[..j+1] ==> x in np')
            && (np'[kids[j]] == 0 ==> Lists(freed + [kids[j]], Spent(kids[..j+1], np')))
            && (np'[kids[j]] != 0 ==> Lists(freed, Spent(kids[..j+1], np')))
  {
    PayOne(np, g, kids, j);
    FreedStep(kids, j, np, np[kids[j] := np[kids[j]] - 1], freed);
  }

  lemma FreedStep(kids: seq<Node>, j: nat, np: Counts, np': Counts, freed: seq<Node>)
    requires j < |kids| && kids[j] in np && np[kids[j]] > 0 && forall x :: x in kids[..j] ==> x in np
    requires Lists(freed, Spent(kids[..j], np)) && np' == np[kids[j] := np[kids[j]] - 1]
    ensures forall x :: x in kids[..j+1] ==> x in np'
    ensures np'[kids[j]] == 0 ==> Lists(freed + [kids[j]], Spent(kids[..j+1], np'))
    ensures np'[kids[j]] != 0 ==> Lists(freed, Spent(kids[..j+1], np'))
  {
    assert kids[..j+1] == kids[..j] + [kids[j]];
    assert kids[j] !in freed;
  }

  // ---------- the order of the answer

  /** The parents of the k-th item all stand among the first f + 1; the last of them is the f-th item, and lists the
      k-th at place p for the last time. */
  ghost predicate FreedAt(g: Children, answer: seq<Node>, k: nat, f: nat, p: nat) {
    && f < k < |answer| && answer[f] in g && p < |g[answer[f]]|
    && g[answer[f]][p] == answer[k] && answer[k] !in g[answer[f]][p+1..]
    && forall q :: Edge(g, q, answer[k]) ==> q in answer[..f+1]
  }

  ghost predicate Earlier(a: (nat, nat), b: (nat, nat)) {
    a.0 < b.0 || (a.0 == b.0 && a.1 < b.1)
  }

  /** First the items without parents; then the others, by their last parents and by where these list them. */
  ghost predicate InQueueOrder(g: Children, answer: seq<Node>, roots: nat, at: seq<(nat, nat)>) {
    && |answer| == roots + |at|
    && (forall k, q :: 0 <= k < roots ==> !Edge(g, q, answer[k]))
    && (forall k :: 0 <= k < |at| ==> FreedAt(g, answer, roots + k, at[k].0, at[k].1))
    && (forall j, k :: 0 <= j < k < |at| ==> Earlier(at[j], at[k]))
  }

  /** The answer after i rounds: its items have been freed by the first i. */
  ghost predicate Queued(g: Children, answer: seq<Node>, roots: nat, at: seq<(nat, nat)>, i: nat) {
    InQueueOrder(g, answer, roots, at) && forall k :: 0 <= k < |at| ==> at[k].0 < i
  }

  ghost function Places(f: nat, ps: seq<nat>): seq<(nat, nat)> {
    seq(|ps|, i requires 0 <= i < |ps| => (f, ps[i]))
  }

  lemma FreedAtStays(g: Children, answer: seq<Node>, freed: seq<Node>, k: nat, f: nat, p: nat)
    requires FreedAt(g, answer, k, f, p)
    ensures FreedAt(g, answer + freed, k, f, p)
  {
    assert (answer + freed)[..f+1] == answer[..f+1];
  }

  /** The freed children of the i-th item are next in the queue. */
  lemma QueueGrows(g: Children, answer: seq<Node>, roots: nat, at: seq<(nat, nat)>, i: nat, freed: seq<Node>,
                   ps: seq<nat>)
    requires Queued(g, answer, roots, at, i) && i < |answer|
    requires LastEntries(ChildList(g, answer[i]), |ChildList(g, answer[i])|, freed, ps)
    requires forall x, q :: x in freed && Edge(g, q, x) ==> q in answer[..i+1]
    ensures Queued(g, answer + freed, roots, at + Places(i, ps), i + 1)
  {
    var more, at' := answer + freed, at + Places(i, ps);
    forall k | 0 <= k < |at'| ensures FreedAt(g, more, roots + k, at'[k].0, at'[k].1) {
      if k < |at| {
        FreedAtStays(g, answer, freed, roots + k, at[k].0, at[k].1);
      } else {
        var m := k - |at|;
        assert more[roots+k] == freed[m] && freed[m] in freed;
        assert more[..i+1] == answer[..i+1];
      }
    }
  }

  lemma QueueStart(np: Counts, g: Children, answer: seq<Node>)
    requires Consistent(np, g) && forall x :: x in answer ==> x in np && np[x] == 0
    ensures Queued(g, answer, |answer|, [], 0)
  {
    forall k, q | 0 <= k < |answer| ensures !Edge(g, q, answer[k]) {
      assert answer[k] in answer;
      InDegreeZero(g, answer[k]);
    }
  }

  /** What is freed has no parents but those processed. */
  lemma FreedParents(np0: Counts, g0: Children, answer: seq<Node>, i: nat, np: Counts, g: Children, freed: seq<Node>)
    requires i < |answer| && Remaining(np0, g0, Elements(answer[..i+1]), np, g)
    requires Consistent(np0, g0) && forall x :: x in freed ==> x in np && np[x] == 0
    ensures forall x, q :: x in freed && Edge(g0, q, x) ==> q in answer[..i+1]
  {
    forall x, q | x in freed && Edge(g0, q, x) ensures q in answer[..i+1] {
      InDegreeZero(g, x);
      assert !Edge(g, q, x);
    }
  }

  ghost predicate DepthsAre(g: Children, answer: seq<Node>, depths: seq<nat>) {
    && |depths| == |answer|
    && (forall k :: 0 <= k < |answer| ==> DepthIs(g, answer[k], depths[k]))
    && (forall j, k :: 0 <= j <= k < |answer| ==> depths[j] <= depths[k])
  }

  /** Every item not behind a cycle, once each, in the order of the longest walk into it. */
  ghost predicate InDepthOrder(g: Children, v: set<Node>, answer: seq<Node>) {
    && Lists(answer, v - Stuck(g, v))
    && exists depths :: DepthsAre(g, answer, depths)
  }

  lemma FreedDepth(np0: Counts, g0: Children, answer: seq<Node>, depths: seq<nat>, i: nat,
                   np: Counts, g: Children, x: Node)
    requires Consistent(np0, g0)
    requires i < |answer| && DepthsAre(g0, answer, depths)
    requires Remaining(np0, g0, Elements(answer[..i+1]), np, g)
    requires x in np && np[x] == 0 && Edge(g0, answer[i], x)
    ensures DepthIs(g0, x, depths[i] + 1)
  {
    forall q | Edge(g0, q, x) ensures !Arrives(g0, q, depths[i] + 1) {
      InDegreeZero(g, x);
      assert !Edge(g, q, x);
      assert q in Elements(answer[..i+1]);
      var k :| 0 <= k <= i && answer[k] == q;
      if Arrives(g0, q, depths[i] + 1) {
        ArrivesShorter(g0, q, depths[i] + 1, depths[k] + 1);
      }
    }
    DepthStep(g0, answer[i], x, depths[i]);
  }

  lemma SourceDepth(np: Counts, g: Children, x: Node)
    requires Consistent(np, g) && x in np && np[x] == 0
    ensures DepthIs(g, x, 0)
  {
    ArrivesZero(g, x);
    InDegreeZero(g, x);
    if Arrives(g, x, 1) {
      var p := ArrivesBack(g, x, 0);
    }
  }

  /** The state between two rounds of topsort's main loop, i items of the answer processed. */
  ghost predicate Round(np0: Counts, g0: Children, answer: seq<Node>, depths: seq<nat>, i: nat,
                        done: set<Node>, np: Counts, g: Children) {
    && i <= |answer|
    && NoDup(answer)
    && done == Elements(answer[..i])
    && Remaining(np0, g0, done, np, g)
    && DepthsAre(g0, answer, depths)
    && (i < |answer| ==> depths[|answer|-1] <= depths[i] + 1)
    && (forall x :: x in answer[i..] <==> x in np && np[x] == 0)
  }

  lemma RoundStart(np0: Counts, g0: Children, answer: seq<Node>)
    requires Consistent(np0, g0)
    requires Lists(answer, Sources(np0))
    ensures Round(np0, g0, answer, seq(|answer|, _ => 0), 0, {}, np0, g0)
  {
    forall k | 0 <= k < |answer| ensures DepthIs(g0, answer[k], 0) {
      assert answer[k] in answer;
      SourceDepth(np0, g0, answer[k]);
    }
    assert Elements(answer[..0]) == {};
    assert Restrict(g0, np0.Keys) == g0;
    assert answer[0..] == answer;
  }

  lemma RoundStep(np0: Counts, g0: Children, answer: seq<Node>, depths: seq<nat>, i: nat, done: set<Node>,
                  np: Counts, g: Children, np': Counts, freed: seq<Node>)
    requires Consistent(np0, g0) && Round(np0, g0, answer, depths, i, done, np, g) && i < |answer|
    requires Owed(np - {answer[i]}, g - {answer[i]}, ChildList(g, answer[i]))
    requires np'.Keys == np.Keys - {answer[i]} && Consistent(np', g - {answer[i]})
    requires Lists(freed, Spent(ChildList(g, answer[i]), np'))
    ensures Round(np0, g0, answer + freed, depths + seq(|freed|, _ => depths[i] + 1), i + 1,
                  done + {answer[i]}, np', g - {answer[i]})
  {
    ElementsPrefix(answer, freed, i);
    RoundRemaining(np0, g0, answer, i, done, np, g, np');
    RoundAnswer(np0, g0, answer, i, done, np, g, np', freed);
    FreedDepths(np0, g0, answer, depths, i, g, np', freed);
    DepthsStayClose(depths, i, |freed|);
  }

  /** One round of the main loop: what it appends is next in the queue. */
  lemma QueueStep(np0: Counts, g0: Children, answer: seq<Node>, depths: seq<nat>, roots: nat, at: seq<(nat, nat)>,
                  i: nat, done: set<Node>, np: Counts, g: Children, np': Counts, freed: seq<Node>)
    returns (at': seq<(nat, nat)>)
    requires Consistent(np0, g0) && Round(np0, g0, answer, depths, i, done, np, g) && i < |answer|
    requires Queued(g0, answer, roots, at, i) && answer[i] in np
    requires np'.Keys == np.Keys - {answer[i]} && Consistent(np', g - {answer[i]})
    requires forall x :: x in freed ==> x in np' && np'[x] == 0
    requires InPlaces(ChildList(g, answer[i]), |ChildList(g, answer[i])|, freed)
    ensures Queued(g0, answer + freed, roots, at', i + 1)
  {
    var kids := ChildList(g, answer[i]);
    var ps :| LastEntries(kids, |kids|, freed, ps);
    assert ChildList(g0, answer[i]) == kids;
    ElementsPrefix(answer, freed, i);
    RoundRemaining(np0, g0, answer, i, done, np, g, np');
    FreedParents(np0, g0, answer, i, np', g - {answer[i]}, freed);
    QueueGrows(g0, answer, roots, at, i, freed, ps);
    at' := at + Places(i, ps);
  }

  lemma RoundRemaining(np0: Counts, g0: Children, answer: seq<Node>, i: nat, done: set<Node>,
                       np: Counts, g: Children, np': Counts)
    requires Remaining(np0, g0, done, np, g) && i < |answer|
    requires forall x :: x in answer[i..] <==> x in np && np[x] == 0
    requires np'.Keys == np.Keys - {answer[i]} && Consistent(np', g - {answer[i]})
    ensures Remaining(np0, g0, done + {answer[i]}, np', g - {answer[i]})
  {
    assert answer[i..][0] == answer[i];
    RemainingStep(np0, g0, done, np, g, answer[i], np');
  }

  lemma RoundAnswer(np0: Counts, g0: Children, answer: seq<Node>, i: nat, done: set<Node>,
                    np: Counts, g: Children, np': Counts, freed: seq<Node>)
    requires Remaining(np0, g0, done, np, g) && i < |answer| && NoDup(answer) && done == Elements(answer[..i])
    requires forall x :: x in answer[i..] <==> x in np && np[x] == 0
    requires Owed(np - {answer[i]}, g - {answer[i]}, ChildList(g, answer[i]))
    requires np'.Keys == np.Keys - {answer[i]} && Consistent(np', g - {answer[i]})
    requires Lists(freed, Spent(ChildList(g, answer[i]), np'))
    ensures NoDup(answer + freed)
    ensures forall x :: x in (answer + freed)[i+1..] <==> x in np' && np'[x] == 0
  {
    var p := answer[i];
    LoweredCounts(np - {p}, g - {p}, ChildList(g, p), np');
    RoundQueue(answer, i, np, np', ChildList(g, p), freed);
  }

  lemma DepthsStayClose(depths: seq<nat>, i: nat, n: nat)
    requires i < |depths| && forall j, k :: 0 <= j <= k < |depths| ==> depths[j] <= depths[k]
    requires depths[|depths|-1] <= depths[i] + 1
    ensures var depths' := depths + seq(n, _ => depths[i] + 1);
            i + 1 < |depths'| ==> depths'[|depths'|-1] <= depths'[i+1] + 1
  {
  }

  lemma LoweredCounts(np: Counts, g: Children, kids: seq<Node>, np': Counts)
    requires Owed(np, g, kids) && np'.Keys == np.Keys && Consistent(np', g)
    ensures forall x :: x in np' ==> 0 <= np'[x] == np[x] - multiset(kids)[x]
  {
  }

  lemma FreedDepths(np0: Counts, g0: Children, answer: seq<Node>, depths: seq<nat>, i: nat,
                    g: Children, np': Counts, freed: seq<Node>)
    requires Consistent(np0, g0)
    requires i < |answer| && DepthsAre(g0, answer, depths) && depths[|answer|-1] <= depths[i] + 1
    requires Remaining(np0, g0, Elements(answer[..i+1]), np', g - {answer[i]})
    requires answer[i] in g ==> answer[i] in g0 && g[answer[i]] == g0[answer[i]]
    requires Lists(freed, Spent(ChildList(g, answer[i]), np'))
    ensures DepthsAre(g0, answer + freed, depths + seq(|freed|, _ => depths[i] + 1))
  {
    forall x | x in freed ensures DepthIs(g0, x, depths[i] + 1) {
      FreedDepth(np0, g0, answer, depths, i, np', g - {answer[i]}, x);
    }
    DepthsGrow(g0, answer, depths, i, freed);
  }

  lemma ElementsPrefix(answer: seq<Node>, freed: seq<Node>, i: nat)
    requires i < |answer|
    ensures (answer + freed)[..i+1] == answer[..i+1]
    ensures Elements(answer[..i+1]) == Elements(answer[..i]) + {answer[i]}
  {
    assert answer[..i+1] == answer[..i] + [answer[i]];
  }

  lemma DepthsGrow(g: Children, answer: seq<Node>, depths: seq<nat>, i: nat, freed: seq<Node>)
    requires i < |answer| && DepthsAre(g, answer, depths)
    requires depths[|answer|-1] <= depths[i] + 1
    requires forall x :: x in freed ==> DepthIs(g, x, depths[i] + 1)
    ensures DepthsAre(g, answer + freed, depths + seq(|freed|, _ => depths[i] + 1))
  {
    var answer', depths' := answer + freed, depths + seq(|freed|, _ => depths[i] + 1);
    forall k | 0 <= k < |answer'| ensures DepthIs(g, answer'[k], depths'[k]) {
      if k >= |answer| {
        assert answer'[k] == freed[k-|answer|] && freed[k-|answer|] in freed;
      }
    }
  }

  /** The unprocessed tail of the answer is again exactly the left-over items without parents. */
  lemma RoundQueue(answer: seq<Node>, i: nat, np: Counts, np': Counts, kids: seq<Node>, freed: seq<Node>)
    requires i < |answer| && NoDup(answer)
    requires forall x :: x in answer[i..] <==> x in np && np[x] == 0
    requires forall x :: x in answer[..i] ==> x !in np
    requires np'.Keys == np.Keys - {answer[i]}
    requires forall x :: x in np' ==> 0 <= np'[x] == np[x] - multiset(kids)[x]
    requires Lists(freed, Spent(kids, np'))
    ensures NoDup(answer + freed)
    ensures forall x :: x in (answer + freed)[i+1..] <==> x in np' && np'[x] == 0
  {
    assert answer[i..] == [answer[i]] + answer[i+1..];
    assert (answer + freed)[i+1..] == answer[i+1..] + freed;
    assert answer == answer[..i] + answer[i..];
    forall x | x in freed ensures x !in answer {
      assert multiset(kids)[x] > 0;
      assert x in np && np[x] != 0;
      assert x !in answer[i..] && x !in answer[..i];
    }
    forall j, k | 0 <= j < k < |answer + freed| ensures (answer + freed)[j] != (answer + freed)[k] {
      if j < |answer| <= k {
        assert answer[j] in answer && freed[k-|answer|] in freed;
      }
    }
    assert forall k :: i < k < |answer| ==> answer[k] == answer[i+1..][k-i-1];
  }

  lemma RoundEnd(np0: Counts, g0: Children, answer: seq<Node>, depths: seq<nat>, done: set<Node>,
                 np: Counts, g: Children)
    requires Consistent(np0, g0) && Round(np0, g0, answer, depths, |answer|, done, np, g)
    ensures InDepthOrder(g0, np0.Keys, answer)
    ensures np.Keys == Stuck(g0, np0.Keys)
    ensures g == Restrict(g0, Stuck(g0, np0.Keys))
  {
    assert answer[..|answer|] == answer;
    assert forall x :: x in answer ==> x in done;
    assert forall x :: x in np ==> np[x] != 0;
    LeftoverIsStuck(np0, g0, done, np, g);
    forall x | x in answer ensures !BehindCycle(g0, x) {
      var k :| 0 <= k < |answer| && answer[k] == x;
      if BehindCycle(g0, x) {
        BehindCycleArrives(g0, x, depths[k] + 1);
      }
    }
  }

  /** What topsort and topsort_levels leave in their dictionaries. */
  ghost predicate Leftover(g: Children, v: set<Node>, np: Counts, children: Children) {
    && np.Keys == Stuck(g, v)
    && children == Restrict(g, Stuck(g, v))
    && Consistent(np, children)
  }

  /** The main loop after i rounds. */
  ghost predicate Underway(np0: Counts, g0: Children, answer: seq<Node>, i: nat, np: Counts, g: Children) {
    InDepths(np0, g0, answer, i, np, g) && InQueue(g0, answer, i)
  }

  ghost predicate InDepths(np0: Counts, g0: Children, answer: seq<Node>, i: nat, np: Counts, g: Children) {
    exists depths, done :: Round(np0, g0, answer, depths, i, done, np, g)
  }

  ghost predicate InQueue(g: Children, answer: seq<Node>, i: nat) {
    exists roots, at :: Queued(g, answer, roots, at, i)
  }

  lemma LoopStart(np0: Counts, g0: Children, answer: seq<Node>)
    requires Consistent(np0, g0) && Lists(answer, Sources(np0))
    ensures Underway(np0, g0, answer, 0, np0, g0)
  {
    RoundStart(np0, g0, answer);
    QueueStart(np0, g0, answer);
  }

  lemma NextIsSource(np0: Counts, g0: Children, answer: seq<Node>, i: nat, np: Counts, g: Children)
    requires Underway(np0, g0, answer, i, np, g) && i < |answer|
    ensures answer[i] in np && np[answer[i]] == 0 && Consistent(np, g)
  {
    assert answer[i] == answer[i..][0];
  }

  lemma NextDepths(np0: Counts, g0: Children, answer: seq<Node>, i: nat, np: Counts, g: Children, np': Counts,
                   freed: seq<Node>)
    requires Consistent(np0, g0) && Underway(np0, g0, answer, i, np, g) && i < |answer|
    requires Owed(np - {answer[i]}, g - {answer[i]}, ChildList(g, answer[i]))
    requires np'.Keys == np.Keys - {answer[i]} && Consistent(np', g - {answer[i]})
    requires Lists(freed, Spent(ChildList(g, answer[i]), np'))
    ensures InDepths(np0, g0, answer + freed, i + 1, np', g - {answer[i]})
  {
    var depths, done :| Round(np0, g0, answer, depths, i, done, np, g);
    RoundStep(np0, g0, answer, depths, i, done, np, g, np', freed);
  }

  lemma NextQueue(np0: Counts, g0: Children, answer: seq<Node>, i: nat, np: Counts, g: Children, np': Counts,
                  freed: seq<Node>)
    requires Consistent(np0, g0) && Underway(np0, g0, answer, i, np, g) && i < |answer|
    requires np'.Keys == np.Keys - {answer[i]} && Consistent(np', g - {answer[i]})
    requires forall x :: x in freed ==> x in np' && np'[x] == 0
    requires InPlaces(ChildList(g, answer[i]), |ChildList(g, answer[i])|, freed)
    ensures InQueue(g0, answer + freed, i + 1)
  {
    var depths, done :| Round(np0, g0, answer, depths, i, done, np, g);
    var roots, at :| Queued(g0, answer, roots, at, i);
    NextIsSource(np0, g0, answer, i, np, g);
    var at' := QueueStep(np0, g0, answer, depths, roots, at, i, done, np, g, np', freed);
  }

  lemma LoopEnd(np0: Counts, g0: Children, answer: seq<Node>, np: Counts, g: Children)
    requires Consistent(np0, g0) && Underway(np0, g0, answer, |answer|, np, g)
    ensures InDepthOrder(g0, np0.Keys, answer) && exists roots, at :: InQueueOrder(g0, answer, roots, at)
    ensures Leftover(g0, np0.Keys, np, g)
  {
    var depths, done :| Round(np0, g0, answer, depths, |answer|, done, np, g);
    RoundEnd(np0, g0, answer, depths, done, np, g);
    var roots, at :| Queued(g0, answer, roots, at, |answer|);
  }

  /** topsort on a graph given by its two dictionaries. */
  method SortGraph(np0: Counts, g0: Children) returns (r: SortOutcome)
    requires Consistent(np0, g0)
    ensures InDepthOrder(g0, np0.Keys, r.answer)
    ensures exists roots, at :: InQueueOrder(g0, r.answer, roots, at)
    ensures r.Sorted? <==> Stuck(g0, np0.Keys) == {}
    ensures r.CycleError? ==> Leftover(g0, np0.Keys, r.numParents, r.children)
  {
    var np, g := np0, g0;
    var answer := WithoutParents(np);
    LoopStart(np0, g0, answer);
    var i := 0;
    while i < |answer|
      invariant Underway(np0, g0, answer, i, np, g)
      decreases np.Keys
    {
      var parent := answer[i];
      NextIsSource(np0, g0, answer, i, np, g);
      RemoveSource(np, g, parent);
      assert (np - {parent}).Keys == np.Keys - {parent};
      var np', freed := KnockDown(ChildList(g, parent), np - {parent}, g - {parent});
      NextDepths(np0, g0, answer, i, np, g, np', freed);
      NextQueue(np0, g0, answer, i, np, g, np', freed);
      answer := answer + freed;
      np, g, i := np', g - {parent}, i + 1;
    }
    LoopEnd(np0, g0, answer, np, g);
    if np != map[] {
      r := CycleError(answer, np, g);
    } else {
      r := Sorted(answer);
    }
  }

  lemma StuckIffCyclic(np: Counts, g: Children)
    requires Consistent(np, g)
    ensures Stuck(g, np.Keys) == {} <==> !Cyclic(g)
  {
    if Cyclic(g) {
      CyclicHasStuckNode(g);
      var x :| x in g && BehindCycle(g, x);
      assert x in Stuck(g, np.Keys);
    }
  }

  /** What an error carries, in terms of the pairs: the left-over parents of each item left over, with repetitions,
      and its children in the order of the pairs. */
  lemma LeftoverSaysPairs(pairs: seq<(Node, Node)>, np: Counts, children: Children)
    requires Leftover(GraphOf(pairs), Items(pairs), np, children)
    ensures forall x :: x in np ==> np[x] == |PairsInto(pairs, x, np.Keys)|
    ensures forall p :: p in np ==> ListsInPairOrder(pairs, children, p)
  {
    forall x | x in np ensures np[x] == |PairsInto(pairs, x, np.Keys)| {
      ParentCount(pairs, x, np.Keys);
    }
    forall p | p in np ensures ListsInPairOrder(pairs, children, p) {
      ListedInPairOrder(pairs, p);
      assert ChildList(children, p) == ChildList(GraphOf(pairs), p);
    }
  }

  method TopSort(pairs: seq<(Node, Node)>) returns (r: SortOutcome)
    ensures InDepthOrder(GraphOf(pairs), Items(pairs), r.answer)
    ensures exists roots, at :: InQueueOrder(GraphOf(pairs), r.answer, roots, at)
    ensures r.CycleError? <==> Cyclic(GraphOf(pairs))
    ensures r.CycleError? ==> Leftover(GraphOf(pairs), Items(pairs), r.numParents, r.children)
  {
    var np, g := BuildGraph(pairs);
    StuckIffCyclic(np, g);
    r := SortGraph(np, g);
  }

  // ---------- topsort_levels

  /** levels[k] lists, once each, the items whose longest incoming walk has k edges; all such items occur. */
  ghost predicate LevelsAre(g: Children, v: set<Node>, levels: seq<seq<Node>>) {
    && (forall k :: 0 <= k < |levels| ==>
          levels[k] != [] && Lists(levels[k], set x | x in v && DepthIs(g, x, k)))
    && (forall x :: x in v - Stuck(g, v) ==> exists k :: 0 <= k < |levels| && x in levels[k])
  }

  ghost function Shallow(g: Children, v: set<Node>, n: nat): set<Node> {
    set x | x in v && !Arrives(g, x, n)
  }

  /** Among the items left after n levels, those without parents are the ones of depth n. */
  lemma LevelIsDepth(np0: Counts, g0: Children, n: nat, np: Counts, g: Children, x: Node)
    requires Consistent(np0, g0) && Remaining(np0, g0, Shallow(g0, np0.Keys, n), np, g) && x in np
    ensures np[x] == 0 <==> DepthIs(g0, x, n)
  {
    InDegreeZero(g, x);
    if Arrives(g0, x, n + 1) {
      var p := ArrivesBack(g0, x, n);
      assert Edge(g, p, x);
    } else if np[x] != 0 {
      var p :| Edge(g, p, x);
      assert p in np;
      ArrivesStep(g0, p, x, n);
    }
  }

  lemma ShallowStep(g: Children, v: set<Node>, n: nat)
    ensures Shallow(g, v, n + 1) == Shallow(g, v, n) + set x | x in v && DepthIs(g, x, n)
  {
    forall x | Arrives(g, x, n + 1) ensures Arrives(g, x, n) {
      ArrivesShorter(g, x, n + 1, n);
    }
  }

  /** The inner loop of topsort_levels: lower the counts of all children of a deleted item. */
  method LowerCounts(kids: seq<Node>, np: Counts, ghost g: Children) returns (np': Counts)
    requires Owed(np, g, kids)
    ensures np'.Keys == np.Keys && Consistent(np', g)
    ensures forall x :: x in np' ==> np'[x] <= np[x]
  {
    np' := np;
    for j := 0 to |kids|
      invariant np'.Keys == np.Keys && Owed(np', g, kids[j..])
      invariant forall x :: x in np' ==> np'[x] <= np[x]
    {
      PayOne(np', g, kids, j);
      np' := np'[kids[j] := np'[kids[j]] - 1];
    }
    OwedNothing(np', g);
  }

  /** The removal loop for one level. */
  method RemoveLevel(level: seq<Node>, ghost np0: Counts, ghost g0: Children, ghost done: set<Node>,
                     np: Counts, g: Children) returns (np': Counts, g': Children)
    requires Remaining(np0, g0, done, np, g)
    requires Lists(level, Sources(np))
    ensures Remaining(np0, g0, done + Elements(level), np', g')
  {
    np', g' := np, g;
    assert level[0..] == level && done + Elements(level[..0]) == done;
    for i := 0 to |level|
      invariant Remaining(np0, g0, done + Elements(level[..i]), np', g')
      invariant forall x :: x in level[i..] ==> x in np' && np'[x] == 0
    {
      var parent := level[i];
      assert parent in level[i..] by { assert parent == level[i..][0]; }
      RemoveSource(np', g', parent);
      var np'' := LowerCounts(ChildList(g', parent), np' - {parent}, g' - {parent});
      RemainingStep(np0, g0, done + Elements(level[..i]), np', g', parent, np'');
      StillSources(level, i, np', np'');
      ElementsPrefix(level, [], i);
      assert done + Elements(level[..i]) + {parent} == done + Elements(level[..i+1]);
      np', g' := np'', g' - {parent};
    }
    assert level[..|level|] == level;
  }

  lemma StillSources(level: seq<Node>, i: nat, np: Counts, np': Counts)
    requires i < |level| && NoDup(level)
    requires forall x :: x in level[i..] ==> x in np && np[x] == 0
    requires np'.Keys == np.Keys - {level[i]} && forall x :: x in np' ==> np'[x] <= np[x]
    requires exists g :: Consistent(np', g)
    ensures forall x :: x in level[i+1..] ==> x in np' && np'[x] == 0
  {
    assert level[i..] == [level[i]] + level[i+1..];
    assert level[i] !in level[i+1..];
  }

  method TopSortLevelsCore(np0: Counts, g0: Children) returns (levels: seq<seq<Node>>, end: LevelsOutcome)
    requires Consistent(np0, g0)
    ensures LevelsAre(g0, np0.Keys, levels)
    ensures end.LevelsCycleError? <==> Cyclic(g0)
    ensures end.LevelsCycleError? ==> Leftover(g0, np0.Keys, end.numParents, end.children)
  {
    var np, g := np0, g0;
    levels := [];
    ghost var v := np0.Keys;
    PeelStart(np0, g0);
    while true
      invariant Peeled(np0, g0, levels, np, g)
      decreases np.Keys
    {
      var level := WithoutParents(np);
      assert forall x :: x in np && np[x] == 0 ==> x in level;
      if level == [] {
        break;
      }
      assert level[0] in level;
      levels := levels + [level];
      ghost var npBefore := np;
      np, g := RemoveLevel(level, np0, g0, Shallow(g0, v, |levels| - 1), np, g);
      PeelStep(np0, g0, levels[..|levels|-1], npBefore, level, np, g);
      assert levels[..|levels|-1] + [level] == levels;
      assert level[0] in npBefore && level[0] !in np;
    }
    PeelEnd(np0, g0, levels, np, g);
    StuckIffCyclic(np0, g0);
    if np != map[] {
      end := LevelsCycleError(np, g);
    } else {
      end := EndOfLevels;
    }
  }

  method TopSortLevels(pairs: seq<(Node, Node)>) returns (levels: seq<seq<Node>>, end: LevelsOutcome)
    ensures LevelsAre(GraphOf(pairs), Items(pairs), levels)
    ensures end.LevelsCycleError? <==> Cyclic(GraphOf(pairs))
    ensures end.LevelsCycleError? ==> Leftover(GraphOf(pairs), Items(pairs), end.numParents, end.children)
  {
    var np, g := BuildGraph(pairs);
    levels, end := TopSortLevelsCore(np, g);
  }

  /** After n levels, the items left are those that a walk of n edges leads into. */
  ghost predicate Peeled(np0: Counts, g0: Children, levels: seq<seq<Node>>, np: Counts, g: Children) {
    && Remaining(np0, g0, Shallow(g0, np0.Keys, |levels|), np, g)
    && forall k :: 0 <= k < |levels| ==>
         levels[k] != [] && Lists(levels[k], set x | x in np0 && DepthIs(g0, x, k))
  }

  lemma PeelStart(np0: Counts, g0: Children)
    requires Consistent(np0, g0)
    ensures Peeled(np0, g0, [], np0, g0)
  {
    forall x ensures Arrives(g0, x, 0) { ArrivesZero(g0, x); }
    assert Shallow(g0, np0.Keys, 0) == {};
    assert Restrict(g0, np0.Keys) == g0;
  }

  lemma PeelStep(np0: Counts, g0: Children, levels: seq<seq<Node>>, np: Counts, level: seq<Node>,
                 np': Counts, g': Children)
    requires Consistent(np0, g0) && exists g :: Peeled(np0, g0, levels, np, g)
    requires level != [] && Lists(level, Sources(np))
    requires Remaining(np0, g0, Shallow(g0, np0.Keys, |levels|) + Elements(level), np', g')
    ensures Peeled(np0, g0, levels + [level], np', g')
  {
    var n := |levels|;
    var g :| Peeled(np0, g0, levels, np, g);
    ShallowStep(g0, np0.Keys, n);
    forall x ensures x in level <==> x in np0 && DepthIs(g0, x, n) {
      if x in np {
        LevelIsDepth(np0, g0, n, np, g, x);
      }
    }
    assert Shallow(g0, np0.Keys, n + 1) == Shallow(g0, np0.Keys, n) + Elements(level);
  }

  lemma PeelEnd(np0: Counts, g0: Children, levels: seq<seq<Node>>, np: Counts, g: Children)
    requires Consistent(np0, g0) && Peeled(np0, g0, levels, np, g)
    requires forall x :: x in np ==> np[x] != 0
    ensures LevelsAre(g0, np0.Keys, levels)
    ensures np.Keys == Stuck(g0, np0.Keys) && g == Restrict(g0, Stuck(g0, np0.Keys))
  {
    var n := |levels|;
    var done := Shallow(g0, np0.Keys, n);
    LeftoverIsStuck(np0, g0, done, np, g);
    forall x | x in np0 && x in done ensures !BehindCycle(g0, x) {
      if BehindCycle(g0, x) {
        BehindCycleArrives(g0, x, n);
      }
    }
    assert np.Keys == Stuck(g0, np0.Keys);
    forall x | x in np0.Keys - Stuck(g0, np0.Keys) ensures exists k :: 0 <= k < |levels| && x in levels[k] {
      var k := ShallowDepth(g0, x, n);
      assert x in levels[k];
    }
  }

  lemma {:induction false} ShallowDepth(g: Children, x: Node, n: nat) returns (k: nat)
    requires !Arrives(g, x, n)
    ensures k < n && DepthIs(g, x, k)
    decreases n
  {
    ArrivesZero(g, x);
    if Arrives(g, x, n - 1) {
      k := n - 1;
    } else {
      k := ShallowDepth(g, x, n - 1);
    }
  }

  // ---------- the two sorts agree

  /** Both algorithms carry the same dictionaries in their errors, whatever the iteration orders were. */
  lemma SameLeftover(g: Children, v: set<Node>, np1: Counts, c1: Children, np2: Counts, c2: Children)
    requires Leftover(g, v, np1, c1) && Leftover(g, v, np2, c2)
    ensures np1 == np2 && c1 == c2
  {
    forall x | x in np1 ensures np1[x] == np2[x] {}
  }

  /** Every left-over item still counts at least one parent, and that parent is left over as well. */
  lemma LeftoverHasParent(np0: Counts, g: Children, np: Counts, children: Children, x: Node)
    requires Consistent(np0, g) && Leftover(g, np0.Keys, np, children) && x in np
    ensures np[x] >= 1 && HasParentIn(children, np.Keys, x)
  {
    var p := ParentBehindCycle(g, x);
    assert p in np.Keys && Edge(children, p, x);
    InDegreeZero(children, x);
  }

  lemma ParentBehindCycle(g: Children, x: Node) returns (p: Node)
    requires BehindCycle(g, x)
    ensures Edge(g, p, x) && BehindCycle(g, p)
  {
    var c :| ClosedWalk(g, c) && Reaches(g, c[0], x);
    var w :| WalkBetween(g, w, c[0], x);
    if |w| == 1 {
      p := c[|c|-2];
      assert Edge(g, c[|c|-2], c[|c|-2+1]);
      assert WalkBetween(g, c[..|c|-1], c[0], p);
    } else {
      p := w[|w|-2];
      assert Edge(g, w[|w|-2], w[|w|-2+1]);
      assert WalkBetween(g, w[..|w|-1], c[0], p);
    }
  }

  /** The source's remark that every left-over item has a child fails, e.g. for [(a, a), (a, b)]. */
  lemma LeftoverWithoutChild(a: Node, b: Node, np: Counts, children: Children)
    requires a != b
    requires Leftover(GraphOf([(a, a), (a, b)]), Items([(a, a), (a, b)]), np, children)
    ensures b in np && b !in children
  {
    var pairs := [(a, a), (a, b)];
    var g := GraphOf(pairs);
    assert pairs[0] == (a, a) && pairs[1] == (a, b);
    GraphOfEdges(pairs, a, a);
    GraphOfEdges(pairs, a, b);
    assert ClosedWalk(g, [a, a]) by { assert Edge(g, a, a); }
    assert WalkBetween(g, [a, b], a, b);
    var c := [a, a];
    assert Reaches(g, c[0], b);
    assert b in Items(pairs) by { assert pairs[1].1 == b; }
  }

  ghost predicate HasChild(g: Children, x: Node) {
    exists y :: Edge(g, x, y)
  }

  /** x stands in some pair as the parent. */
  ghost predicate IsParent(pairs: seq<(Node, Node)>, x: Node) {
    exists i :: 0 <= i < |pairs| && pairs[i].0 == x
  }

  lemma HasChildIff(pairs: seq<(Node, Node)>, x: Node)
    ensures HasChild(GraphOf(pairs), x) <==> IsParent(pairs, x)
  {
    if i :| 0 <= i < |pairs| && pairs[i].0 == x {
      GraphOfEdges(pairs, x, pairs[i].1);
      assert pairs[i] == (x, pairs[i].1);
      assert Edge(GraphOf(pairs), x, pairs[i].1);
    }
    if y :| Edge(GraphOf(pairs), x, y) {
      GraphOfEdges(pairs, x, y);
      var i :| 0 <= i < |pairs| && pairs[i] == (x, y);
      assert pairs[i].0 == x;
    }
  }

  /** The remark holds exactly for pairs in which every item reachable from a cycle is also a parent. */
  lemma LeftoversHaveChildrenIff(pairs: seq<(Node, Node)>, np: Counts, children: Children)
    requires Leftover(GraphOf(pairs), Items(pairs), np, children)
    ensures (forall x :: x in np ==> HasChild(children, x))
       <==> (forall x :: x in Items(pairs) && BehindCycle(GraphOf(pairs), x) ==> IsParent(pairs, x))
  {
    var g := GraphOf(pairs);
    forall x | x in np ensures HasChild(children, x) <==> IsParent(pairs, x) {
      HasChildIff(pairs, x);
      assert forall y :: Edge(children, x, y) <==> Edge(g, x, y);
    }
    assert forall x :: x in np <==> x in Items(pairs) && BehindCycle(g, x);
  }

  /** In a depth-ordered answer every item comes after all of its parents. */
  lemma ParentsFirst(g: Children, v: set<Node>, answer: seq<Node>, i: nat, j: nat)
    requires InDepthOrder(g, v, answer) && i < |answer| && j < |answer| && Edge(g, answer[i], answer[j])
    ensures i < j
  {
    var depths :| DepthsAre(g, answer, depths);
    DepthOfParent(g, answer[i], answer[j], depths[j]);
    if j <= i {
      ArrivesShorter(g, answer[i], depths[i], depths[j]);
    }
  }

  /** On an acyclic graph nothing is missing from the answer. */
  lemma AcyclicAnswerComplete(np: Counts, g: Children, answer: seq<Node>)
    requires Consistent(np, g) && !Cyclic(g) && InDepthOrder(g, np.Keys, answer)
    ensures Lists(answer, np.Keys)
  {
    StuckIffCyclic(np, g);
  }

  /** Where the k-th level starts when all levels are laid end to end. */
  ghost function Offset(levels: seq<seq<Node>>, k: nat): nat
    requires k <= |levels|
  {
    if k == 0 then 0 else Offset(levels, k - 1) + |levels[k-1]|
  }

  /** The first m entries of a sorted list of depths are those at most k. */
  lemma DepthPrefix(depths: seq<nat>, k: nat) returns (m: nat)
    requires forall i, j :: 0 <= i <= j < |depths| ==> depths[i] <= depths[j]
    ensures m <= |depths| && forall i :: 0 <= i < |depths| ==> (i < m <==> depths[i] <= k)
  {
    m := |depths|;
    while m > 0 && depths[m-1] > k
      invariant m <= |depths| && forall i :: m <= i < |depths| ==> depths[i] > k
    {
      m := m - 1;
    }
  }

  /** The k-th level occupies its place in the answer, in some order. */
  ghost predicate LevelInPlace(answer: seq<Node>, levels: seq<seq<Node>>, k: nat)
    requires k < |levels|
  {
    && Offset(levels, k) <= Offset(levels, k + 1) <= |answer|
    && multiset(answer[Offset(levels, k)..Offset(levels, k + 1)]) == multiset(levels[k])
  }

  /** The first k levels fill exactly the first Offset(k) places of the answer. */
  lemma {:induction false} LevelsFill(g: Children, v: set<Node>, answer: seq<Node>, depths: seq<nat>,
                                      levels: seq<seq<Node>>, k: nat)
    requires Lists(answer, v - Stuck(g, v)) && DepthsAre(g, answer, depths) && LevelsAre(g, v, levels)
    requires k <= |levels|
    ensures Offset(levels, k) <= |answer|
    ensures forall i :: 0 <= i < |answer| ==> (i < Offset(levels, k) <==> depths[i] < k)
    ensures k > 0 ==> LevelInPlace(answer, levels, k - 1)
  {
    if k > 0 {
      LevelsFill(g, v, answer, depths, levels, k - 1);
      var from := Offset(levels, k - 1);
      var m := DepthPrefix(depths, k - 1);
      assert m < |depths| ==> depths[m] > k - 1;
      LevelBlock(g, v, answer, depths, from, m, k - 1, levels[k-1]);
    }
  }

  lemma LevelBlock(g: Children, v: set<Node>, answer: seq<Node>, depths: seq<nat>, from: nat, m: nat,
                   k: nat, level: seq<Node>)
    requires Lists(answer, v - Stuck(g, v)) && DepthsAre(g, answer, depths)
    requires from <= m <= |answer|
    requires forall i :: 0 <= i < |answer| ==> (from <= i < m <==> depths[i] == k)
    requires Lists(level, set x | x in v && DepthIs(g, x, k))
    ensures m - from == |level| && multiset(answer[from..m]) == multiset(level)
  {
    var block := answer[from..m];
    forall x ensures x in block <==> x in level {
      BlockMembers(g, v, answer, depths, from, m, k, x);
    }
    SameItems(block, level);
  }

  lemma BlockMembers(g: Children, v: set<Node>, answer: seq<Node>, depths: seq<nat>, from: nat, m: nat,
                     k: nat, x: Node)
    requires Lists(answer, v - Stuck(g, v)) && DepthsAre(g, answer, depths)
    requires from <= m <= |answer|
    requires forall i :: 0 <= i < |answer| ==> (from <= i < m <==> depths[i] == k)
    ensures x in answer[from..m] <==> x in v && DepthIs(g, x, k)
  {
    if x in answer[from..m] {
      var i :| from <= i < m && answer[i] == x;
      assert answer[i] in answer;
    }
    if x in v && DepthIs(g, x, k) {
      if BehindCycle(g, x) {
        BehindCycleArrives(g, x, k + 1);
      }
      assert x in answer;
      var i :| 0 <= i < |answer| && answer[i] == x;
      DepthUnique(g, x, depths[i], k);
      assert answer[from..m][i-from] == x;
    }
  }

  /** topsort's list is the levels of topsort_levels end to end, each level permuted. */
  lemma SortIsConcatenatedLevels(g: Children, v: set<Node>, answer: seq<Node>, levels: seq<seq<Node>>)
    requires InDepthOrder(g, v, answer) && LevelsAre(g, v, levels)
    ensures Offset(levels, |levels|) == |answer|
    ensures forall k :: 0 <= k < |levels| ==> LevelInPlace(answer, levels, k)
  {
    var depths :| DepthsAre(g, answer, depths);
    forall k | 0 <= k < |levels| ensures LevelInPlace(answer, levels, k) {
      LevelsFill(g, v, answer, depths, levels, k + 1);
    }
    LevelsFill(g, v, answer, depths, levels, |levels|);
    forall i | 0 <= i < |answer| ensures depths[i] < |levels| {
      assert answer[i] in answer;
      var k :| 0 <= k < |levels| && answer[i] in levels[k];
      DepthUnique(g, answer[i], depths[i], k);
    }
    assert |answer| > 0 ==> depths[|answer|-1] < |levels|;
  }
}
