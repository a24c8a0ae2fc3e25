/**
 bindings/python/topsort.py: `find_cycles`, an explicit-stack search that yields every simple cycle
 of a graph once up to rotation.
 */
module FindCycles {
  import opened DepGraph
  import opened Sequences
  import opened Rotations
  import opened TopSort

  ghost predicate SimplePath(g: Children, p: seq<Node>) {
    Walk(g, p) && NoDup(p)
  }

  /** A cycle in the source's sense: the last item is a parent of the first. */
  ghost predicate SimpleCycle(g: Children, z: seq<Node>) {
    SimplePath(g, z) && Edge(g, z[|z|-1], z[0])
  }

  ghost predicate Known(cycles: seq<seq<Node>>, z: seq<Node>) {
    exists k :: 0 <= k < |cycles| && IsRotation(cycles[k], z)
  }

  /** Only simple cycles, and no two of them rotations of each other. */
  ghost predicate DistinctCycles(g: Children, cycles: seq<seq<Node>>) {
    && (forall k :: 0 <= k < |cycles| ==> SimpleCycle(g, cycles[k]))
    && (forall j, k :: 0 <= j < k < |cycles| ==> !IsRotation(cycles[j], cycles[k]))
  }

  /** Every simple cycle of the graph exactly once, up to rotation. */
  ghost predicate EnumeratesCycles(g: Children, cycles: seq<seq<Node>>) {
    && DistinctCycles(g, cycles)
    && forall z :: SimpleCycle(g, z) ==> Known(cycles, z)
  }

  /** The first place of x in the path. */
  function IndexOf(path: seq<Node>, x: Node): (i: nat)
    requires x in path
    ensures i < |path| && path[i] == x && x !in path[..i]
  {
    if path[0] == x then 0 else 1 + IndexOf(path[1..], x)
  }

  // ---------- what a search has to have done

  /** Every cycle closed by an edge from the end of q back into q is known. */
  ghost predicate Handled(g: Children, q: seq<Node>, cycles: seq<seq<Node>>)
    requires q != []
  {
    forall c :: Edge(g, q[|q|-1], c) && c in q ==> Known(cycles, q[IndexOf(q, c)..])
  }

  ghost predicate PathFrom(g: Children, q: seq<Node>, root: Node) {
    SimplePath(g, q) && q[0] == root
  }

  ghost predicate Explored(g: Children, root: Node, cycles: seq<seq<Node>>) {
    forall q :: PathFrom(g, q, root) ==> Handled(g, q, cycles)
  }

  /** Some prefix of q is still on the stack. */
  ghost predicate Pending(paths: seq<seq<Node>>, q: seq<Node>) {
    exists k :: 0 <= k < |paths| && paths[k] <= q
  }

  ghost predicate Covered(g: Children, root: Node, paths: seq<seq<Node>>, cycles: seq<seq<Node>>) {
    forall q :: PathFrom(g, q, root) ==> Handled(g, q, cycles) || Pending(paths, q)
  }

  lemma KnownGrows(cycles: seq<seq<Node>>, more: seq<seq<Node>>, z: seq<Node>)
    requires cycles <= more && Known(cycles, z)
    ensures Known(more, z)
  {
    var k :| 0 <= k < |cycles| && IsRotation(cycles[k], z);
    assert more[k] == cycles[k];
  }

  lemma HandledGrows(g: Children, q: seq<Node>, cycles: seq<seq<Node>>, more: seq<seq<Node>>)
    requires q != [] && cycles <= more && Handled(g, q, cycles)
    ensures Handled(g, q, more)
  {
    forall c | Edge(g, q[|q|-1], c) && c in q ensures Known(more, q[IndexOf(q, c)..]) {
      KnownGrows(cycles, more, q[IndexOf(q, c)..]);
    }
  }

  lemma ExploredGrows(g: Children, root: Node, cycles: seq<seq<Node>>, more: seq<seq<Node>>)
    requires cycles <= more && Explored(g, root, cycles)
    ensures Explored(g, root, more)
  {
    forall q | PathFrom(g, q, root) ensures Handled(g, q, more) {
      HandledGrows(g, q, cycles, more);
    }
  }

  // ---------- termination: the number of simple paths still to be popped

  ghost function AllNodes(g: Children): set<Node> {
    g.Keys + (set p, c | p in g && c in g[p] :: c)
  }

  ghost predicate InGraph(g: Children, p: seq<Node>) {
    SimplePath(g, p) && forall x :: x in p ==> x in AllNodes(g)
  }

  lemma PathGrows(g: Children, p: seq<Node>, c: Node)
    requires InGraph(g, p) && Edge(g, p[|p|-1], c) && c !in p
    ensures InGraph(g, p + [c]) && |p| < |AllNodes(g)|
  {
    assert c in AllNodes(g);
    NoDupFits(p + [c], AllNodes(g));
  }

  ghost predicate KidsOfPath(g: Children, path: seq<Node>, kids: seq<Node>) {
    InGraph(g, path) && forall c :: c in kids ==> Edge(g, path[|path|-1], c)
  }

  lemma KidsSplit(g: Children, path: seq<Node>, kids: seq<Node>)
    requires KidsOfPath(g, path, kids) && kids != []
    ensures KidsOfPath(g, path, kids[..|kids|-1]) && Edge(g, path[|path|-1], kids[|kids|-1])
  {
    var fewer := kids[..|kids|-1];
    assert kids[|kids|-1] in kids;
    forall c | c in fewer ensures Edge(g, path[|path|-1], c) {
      var i :| 0 <= i < |fewer| && fewer[i] == c;
      assert kids[i] in kids;
    }
  }

  /** How many paths are popped, in all, from a stack that holds just `path`. */
  ghost function PathWork(g: Children, path: seq<Node>): nat
    requires InGraph(g, path)
    decreases |AllNodes(g)| + 1 - |path|, 1, 0
  {
    NoDupFits(path, AllNodes(g));
    1 + KidsWork(g, path, ChildList(g, path[|path|-1]))
  }

  ghost function KidsWork(g: Children, path: seq<Node>, kids: seq<Node>): nat
    requires KidsOfPath(g, path, kids)
    decreases |AllNodes(g)| + 1 - |path|, 0, |kids|
  {
    if kids == [] then 0
    else
      NoDupFits(path, AllNodes(g));
      KidsSplit(g, path, kids);
      var c := kids[|kids|-1];
      KidsWork(g, path, kids[..|kids|-1])
      + if c in path then 0 else (PathGrows(g, path, c); PathWork(g, path + [c]))
  }

  ghost predicate StackOk(g: Children, root: Node, paths: seq<seq<Node>>) {
    forall k :: 0 <= k < |paths| ==> InGraph(g, paths[k]) && paths[k][0] == root
  }

  ghost function StackWork(g: Children, root: Node, paths: seq<seq<Node>>): nat
    requires StackOk(g, root, paths)
  {
    if paths == [] then 0
    else StackWork(g, root, paths[..|paths|-1]) + PathWork(g, paths[|paths|-1])
  }

  /** The paths pushed for `path` when its children are `kids`. */
  function Extensions(path: seq<Node>, kids: seq<Node>): seq<seq<Node>> {
    if kids == [] then []
    else
      var c := kids[|kids|-1];
      Extensions(path, kids[..|kids|-1]) + if c in path then [] else [path + [c]]
  }

  lemma {:induction false} PushWork(g: Children, root: Node, paths: seq<seq<Node>>, path: seq<Node>, kids: seq<Node>)
    requires StackOk(g, root, paths) && KidsOfPath(g, path, kids) && path[0] == root
    ensures StackOk(g, root, paths + Extensions(path, kids))
    ensures StackWork(g, root, paths + Extensions(path, kids)) == StackWork(g, root, paths) + KidsWork(g, path, kids)
    decreases |kids|
  {
    var all := paths + Extensions(path, kids);
    if kids == [] {
      assert all == paths;
    } else {
      var c := kids[|kids|-1];
      KidsSplit(g, path, kids);
      var fewer := paths + Extensions(path, kids[..|kids|-1]);
      PushWork(g, root, paths, path, kids[..|kids|-1]);
      if c in path {
        assert all == fewer;
      } else {
        PathGrows(g, path, c);
        assert all == fewer + [path + [c]];
        assert all[..|all|-1] == fewer;
      }
    }
  }

  lemma {:induction false} ExtensionMember(path: seq<Node>, kids: seq<Node>, c: Node)
    requires c in kids && c !in path
    ensures path + [c] in Extensions(path, kids)
  {
    if kids[|kids|-1] != c {
      assert kids == kids[..|kids|-1] + [kids[|kids|-1]];
      ExtensionMember(path, kids[..|kids|-1], c);
    }
  }

  // ---------- the search

  /** The loop over `cycles` that keeps rotations of a known cycle out. */
  method Record(cycles: seq<seq<Node>>, cycle: seq<Node>, ghost g: Children) returns (more: seq<seq<Node>>)
    requires DistinctCycles(g, cycles) && SimpleCycle(g, cycle)
    ensures cycles <= more && DistinctCycles(g, more) && Known(more, cycle)
  {
    more := cycles;
    for k := 0 to |cycles|
      invariant forall j :: 0 <= j < k ==> !IsRotation(cycles[j], cycle)
    {
      var check := IsRotated(cycles[k], cycle);
      if check.Answer? && check.value {
        return;
      }
    }
    more := cycles + [cycle];
    Reflexive(cycle);
    assert more[|cycles|] == cycle;
  }

  lemma ClosingCycle(g: Children, path: seq<Node>, child: Node)
    requires SimplePath(g, path) && Edge(g, path[|path|-1], child) && child in path
    ensures SimpleCycle(g, path[IndexOf(path, child)..])
  {
    var i := IndexOf(path, child);
    var z := path[i..];
    SuffixWalk(g, path, i);
    SuffixNoDup(path, i);
    assert z[|z|-1] == path[|path|-1] && z[0] == child;
  }

  lemma SuffixWalk(g: Children, path: seq<Node>, i: nat)
    requires i < |path| && Walk(g, path)
    ensures Walk(g, path[i..])
  {
    var z := path[i..];
    forall k | 0 <= k < |z| - 1 ensures Edge(g, z[k], z[k+1]) {
      assert Edge(g, path[i+k], path[i+k+1]);
    }
  }

  lemma SuffixNoDup(path: seq<Node>, i: nat)
    requires i < |path| && NoDup(path)
    ensures NoDup(path[i..])
  {
  }

  ghost predicate HandledFor(q: seq<Node>, kids: seq<Node>, cycles: seq<seq<Node>>) {
    forall c :: c in kids && c in q ==> Known(cycles, q[IndexOf(q, c)..])
  }

  lemma ExtensionsStep(path: seq<Node>, kids: seq<Node>, c: Node)
    ensures Extensions(path, kids + [c]) == Extensions(path, kids) + if c in path then [] else [path + [c]]
  {
    assert (kids + [c])[..|kids|] == kids;
  }

  lemma HandledForStep(q: seq<Node>, kids: seq<Node>, child: Node, cycles: seq<seq<Node>>, more: seq<seq<Node>>)
    requires cycles <= more && HandledFor(q, kids, cycles)
    requires child in q ==> Known(more, q[IndexOf(q, child)..])
    ensures HandledFor(q, kids + [child], more)
  {
    forall c | c in kids && c in q ensures Known(more, q[IndexOf(q, c)..]) {
      KnownGrows(cycles, more, q[IndexOf(q, c)..]);
    }
  }

  /** The loop over the children of a popped path's last node. */
  method Expand(g: Children, path: seq<Node>, paths: seq<seq<Node>>, cycles: seq<seq<Node>>, visited: set<Node>)
    returns (paths': seq<seq<Node>>, cycles': seq<seq<Node>>, visited': set<Node>)
    requires SimplePath(g, path) && DistinctCycles(g, cycles)
    ensures paths' == paths + Extensions(path, ChildList(g, path[|path|-1]))
    ensures cycles <= cycles' && DistinctCycles(g, cycles') && Handled(g, path, cycles')
    ensures visited' == visited + set c | c in ChildList(g, path[|path|-1]) && c !in path
  {
    var children := ChildList(g, path[|path|-1]);
    paths', cycles', visited' := paths, cycles, visited;
    for j := 0 to |children|
      invariant paths' == paths + Extensions(path, children[..j])
      invariant cycles <= cycles' && DistinctCycles(g, cycles') && HandledFor(path, children[..j], cycles')
      invariant visited' == visited + set c | c in children[..j] && c !in path
    {
      var child := children[j];
      assert children[..j+1] == children[..j] + [child];
      ExtensionsStep(path, children[..j], child);
      if child in path {
        ClosingCycle(g, path, child);
        var cycle := path[IndexOf(path, child)..];
        ghost var before := cycles';
        cycles' := Record(cycles', cycle, g);
        HandledForStep(path, children[..j], child, before, cycles');
      } else {
        HandledForStep(path, children[..j], child, cycles', cycles');
        paths' := paths' + [path + [child]];
        visited' := visited' + {child};
      }
    }
    assert children[..|children|] == children;
  }

  lemma ReachesStep(g: Children, path: seq<Node>, c: Node)
    requires Walk(g, path) && Edge(g, path[|path|-1], c)
    ensures Reaches(g, path[0], c)
  {
    assert WalkBetween(g, path + [c], path[0], c);
  }

  /** After popping and expanding a path, every path is still handled or pending. */
  lemma CoveredStep(g: Children, root: Node, paths: seq<seq<Node>>, path: seq<Node>,
                    cycles: seq<seq<Node>>, cycles': seq<seq<Node>>)
    requires path != [] && Covered(g, root, paths + [path], cycles)
    requires cycles <= cycles' && Handled(g, path, cycles')
    ensures Covered(g, root, paths + Extensions(path, ChildList(g, path[|path|-1])), cycles')
  {
    var kids := ChildList(g, path[|path|-1]);
    var paths' := paths + Extensions(path, kids);
    forall q | PathFrom(g, q, root) ensures Handled(g, q, cycles') || Pending(paths', q) {
      if Handled(g, q, cycles) {
        HandledGrows(g, q, cycles, cycles');
      } else {
        PendingStep(g, paths, path, q);
      }
    }
  }

  lemma PendingStep(g: Children, paths: seq<seq<Node>>, path: seq<Node>, q: seq<Node>)
    requires SimplePath(g, q) && path != [] && Pending(paths + [path], q)
    ensures q == path || Pending(paths + Extensions(path, ChildList(g, path[|path|-1])), q)
  {
    var kids := ChildList(g, path[|path|-1]);
    if path <= q && q != path {
      NextOnPath(g, q, path);
      ExtensionMember(path, kids, q[|path|]);
      PushedIsPending(paths, Extensions(path, kids), path + [q[|path|]], q);
    } else if q != path {
      PoppedWasNot(paths, path, Extensions(path, kids), q);
    }
  }

  lemma PushedIsPending(paths: seq<seq<Node>>, more: seq<seq<Node>>, p: seq<Node>, q: seq<Node>)
    requires p in more && p <= q
    ensures Pending(paths + more, q)
  {
    var m :| 0 <= m < |more| && more[m] == p;
    assert (paths + more)[|paths|+m] == p;
  }

  lemma PoppedWasNot(paths: seq<seq<Node>>, path: seq<Node>, more: seq<seq<Node>>, q: seq<Node>)
    requires Pending(paths + [path], q) && !(path <= q)
    ensures Pending(paths + more, q)
  {
    var k :| 0 <= k < |paths + [path]| && (paths + [path])[k] <= q;
    assert k < |paths|;
    assert (paths + more)[k] == paths[k];
  }

  lemma NextOnPath(g: Children, q: seq<Node>, path: seq<Node>)
    requires SimplePath(g, q) && path != [] && path <= q && q != path
    ensures q[|path|] in ChildList(g, path[|path|-1]) && q[|path|] !in path
    ensures path + [q[|path|]] <= q
  {
    var n := |path|;
    assert path == q[..n];
    assert Edge(g, q[n-1], q[n-1+1]);
    assert q[..n+1] == path + [q[n]];
  }

  /** The stack loop for one root: afterwards every simple path from the root has been handled. */
  method ExploreFrom(g: Children, root: Node, cycles: seq<seq<Node>>, visited: set<Node>)
    returns (cycles': seq<seq<Node>>, visited': set<Node>)
    requires root in g && DistinctCycles(g, cycles)
    ensures cycles <= cycles' && DistinctCycles(g, cycles') && Explored(g, root, cycles')
    ensures visited <= visited' && forall v :: v in visited' - visited ==> Reaches(g, root, v)
  {
    cycles', visited' := cycles, visited;
    var paths := [[root]];
    forall q | PathFrom(g, q, root) ensures Pending(paths, q) {
      assert paths[0] <= q;
    }
    while paths != []
      invariant StackOk(g, root, paths)
      invariant cycles <= cycles' && DistinctCycles(g, cycles') && Covered(g, root, paths, cycles')
      invariant visited <= visited' && forall v :: v in visited' - visited ==> Reaches(g, root, v)
      decreases StackWork(g, root, paths)
    {
      var path := paths[|paths|-1];
      ghost var stack, before := paths, cycles';
      paths := paths[..|paths|-1];
      assert paths + [path] == stack;
      ghost var kids := ChildList(g, path[|path|-1]);
      forall c | c in kids ensures Reaches(g, root, c) {
        ReachesStep(g, path, c);
      }
      PushWork(g, root, paths, path, kids);
      paths, cycles', visited' := Expand(g, path, paths, cycles', visited');
      CoveredStep(g, root, stack[..|stack|-1], path, before, cycles');
    }
    forall q | PathFrom(g, q, root) ensures Handled(g, q, cycles') {
      assert !Pending(paths, q);
    }
  }

  ghost predicate ReachedFrom(g: Children, done: set<Node>, v: Node) {
    exists r :: r in done && Reaches(g, r, v)
  }

  method FindCycles(parentChildren: Children) returns (cycles: seq<seq<Node>>)
    ensures EnumeratesCycles(parentChildren, cycles)
  {
    var g := parentChildren;
    cycles := [];
    var visitedNodes := {};
    ghost var done := {};
    var roots := KeysInSomeOrder(g.Keys);
    for k := 0 to |roots|
      invariant DistinctCycles(g, cycles)
      invariant forall r :: r in done ==> Explored(g, r, cycles)
      invariant forall v :: v in visitedNodes ==> ReachedFrom(g, done, v)
      invariant forall r :: r in roots[..k] ==> ReachedFrom(g, done, r)
    {
      var parent := roots[k];
      assert parent in g by { assert parent in roots; }
      assert roots[..k+1] == roots[..k] + [parent];
      if parent !in visitedNodes {
        ghost var cyclesBefore, visitedBefore := cycles, visitedNodes;
        cycles, visitedNodes := ExploreFrom(g, parent, cycles, visitedNodes);
        forall r | r in done ensures Explored(g, r, cycles) {
          ExploredGrows(g, r, cyclesBefore, cycles);
        }
        ReachedGrows(g, done, parent);
        done := done + {parent};
      }
    }
    assert roots[..|roots|] == roots;
    forall z | SimpleCycle(g, z) ensures Known(cycles, z) {
      assert z[0] in g by { if |z| > 1 { assert Edge(g, z[0], z[0+1]); } }
      assert ReachedFrom(g, done, z[0]);
      var r :| r in done && Reaches(g, r, z[0]);
      CycleFound(g, r, cycles, z);
    }
  }

  lemma ReachedGrows(g: Children, done: set<Node>, r: Node)
    ensures forall v :: ReachedFrom(g, done, v) || Reaches(g, r, v) ==> ReachedFrom(g, done + {r}, v)
    ensures ReachedFrom(g, done + {r}, r)
  {
    assert WalkBetween(g, [r], r, r);
    assert r in done + {r} && Reaches(g, r, r);
    forall v | ReachedFrom(g, done, v) ensures ReachedFrom(g, done + {r}, v) {
      var s :| s in done && Reaches(g, s, v);
      assert s in done + {r};
    }
  }

  // ---------- completeness: a reachable cycle cannot be missed

  /** A simple path from w[0] that meets the cycle in its last node only. */
  lemma {:induction false} ShortCut(g: Children, w: seq<Node>, z: seq<Node>) returns (p: seq<Node>)
    requires Walk(g, w) && w[|w|-1] in z
    ensures PathFrom(g, p, w[0]) && p[|p|-1] in z && forall i :: 0 <= i < |p| - 1 ==> p[i] !in z
    decreases |w|
  {
    if w[0] in z {
      p := [w[0]];
    } else {
      var v := w[1..];
      forall i | 0 <= i < |v| - 1 ensures Edge(g, v[i], v[i+1]) {
        assert Edge(g, w[i+1], w[i+1+1]);
      }
      var tail := ShortCut(g, v, z);
      assert Edge(g, w[0], w[0+1]);
      if w[0] in tail {
        var k :| 0 <= k < |tail| && tail[k] == w[0];
        p := tail[k..];
        forall i | 0 <= i < |p| - 1 ensures Edge(g, p[i], p[i+1]) && p[i] !in z {
          assert Edge(g, tail[k+i], tail[k+i+1]);
        }
      } else {
        p := [w[0]] + tail;
        forall i | 0 <= i < |p| - 1 ensures Edge(g, p[i], p[i+1]) {
          if i > 0 { assert Edge(g, tail[i-1], tail[i-1+1]); }
        }
      }
    }
  }

  lemma RotatedMembers(z: seq<Node>, k: nat)
    requires NoDup(z) && k < |z|
    ensures NoDup(Rotate(z, k)) && forall x :: x in Rotate(z, k) <==> x in z
  {
    assert z == z[..k] + z[k..];
    forall i, j | 0 <= i < j < |z| ensures Rotate(z, k)[i] != Rotate(z, k)[j] {
      RotateAt(z, k, i);
      RotateAt(z, k, j);
    }
  }

  lemma RotatedCycle(g: Children, z: seq<Node>, k: nat)
    requires SimpleCycle(g, z) && k < |z|
    ensures SimpleCycle(g, Rotate(z, k)) && Rotate(z, k)[0] == z[k]
    ensures forall x :: x in Rotate(z, k) <==> x in z
  {
    var y, n := Rotate(z, k), |z|;
    RotatedMembers(z, k);
    forall i | 0 <= i < n ensures Edge(g, y[i], y[if i + 1 < n then i + 1 else 0]) {
      var m := if i + k < n then i + k else i + k - n;
      RotateAt(z, k, i);
      RotateAt(z, k, if i + 1 < n then i + 1 else 0);
      if m + 1 < n { assert Edge(g, z[m], z[m+1]); }
    }
  }

  lemma KnownRotation(cycles: seq<seq<Node>>, y: seq<Node>, z: seq<Node>)
    requires Known(cycles, y) && IsRotation(y, z)
    ensures Known(cycles, z)
  {
    var m :| 0 <= m < |cycles| && IsRotation(cycles[m], y);
    Transitive(cycles[m], y, z);
  }

  lemma CycleFound(g: Children, r: Node, cycles: seq<seq<Node>>, z: seq<Node>)
    requires SimpleCycle(g, z) && Reaches(g, r, z[0]) && Explored(g, r, cycles)
    ensures Known(cycles, z)
  {
    var w :| WalkBetween(g, w, r, z[0]);
    var p := ShortCut(g, w, z);
    var k :| 0 <= k < |z| && z[k] == p[|p|-1];
    var y := Rotate(z, k);
    RotatedCycle(g, z, k);
    AroundTheCycle(g, p, y);
    ExploredCloses(g, r, p + y[1..], y, cycles);
    assert IsRotation(z, y);
    Symmetric(z, y);
    KnownRotation(cycles, y, z);
  }

  lemma ExploredCloses(g: Children, r: Node, q: seq<Node>, y: seq<Node>, cycles: seq<seq<Node>>)
    requires Explored(g, r, cycles) && PathFrom(g, q, r) && y != []
    requires Edge(g, q[|q|-1], y[0]) && y[0] in q && q[IndexOf(q, y[0])..] == y
    ensures Known(cycles, y)
  {
    assert Handled(g, q, cycles);
  }

  lemma AroundTheCycle(g: Children, p: seq<Node>, y: seq<Node>)
    requires SimplePath(g, p) && SimpleCycle(g, y) && p[|p|-1] == y[0]
    requires forall i :: 0 <= i < |p| - 1 ==> p[i] !in y
    ensures var q := p + y[1..];
            SimplePath(g, q) && q[0] == p[0] && Edge(g, q[|q|-1], y[0]) && y[0] in q
            && q[IndexOf(q, y[0])..] == y
  {
    var q, n := p + y[1..], |p| - 1;
    assert forall i :: 0 <= i < |y| ==> q[n+i] == y[i];
    forall i | 0 <= i < |q| - 1 ensures Edge(g, q[i], q[i+1]) {
      if i < n {
        assert Edge(g, p[i], p[i+1]);
      } else {
        assert Edge(g, y[i-n], y[i-n+1]);
      }
    }
    forall i, j | 0 <= i < j < |q| ensures q[i] != q[j] {
      if i < n && j >= n {
        assert q[j] == y[j-n];
      } else if i >= n {
        assert q[i] == y[i-n] && q[j] == y[j-n];
      }
    }
    assert q[n] == y[0];
    var m := IndexOf(q, y[0]);
    assert m == n;
  }

  // ---------- consequences

  lemma {:induction false} ClosedWalkHasSimpleCycle(g: Children, c: seq<Node>) returns (z: seq<Node>)
    requires ClosedWalk(g, c)
    ensures SimpleCycle(g, z)
    decreases |c|
  {
    z := c[..|c|-1];
    assert Edge(g, c[|c|-2], c[|c|-2+1]);
    if !NoDup(z) {
      var i, j :| 0 <= i < j < |z| && z[i] == z[j];
      var d := c[i..j+1];
      forall m | 0 <= m < |d| - 1 ensures Edge(g, d[m], d[m+1]) {
        assert Edge(g, c[i+m], c[i+m+1]);
      }
      z := ClosedWalkHasSimpleCycle(g, d);
    }
  }

  /** The search yields something exactly on the graphs that topsort rejects. */
  lemma YieldsIffCyclic(g: Children, cycles: seq<seq<Node>>)
    requires EnumeratesCycles(g, cycles)
    ensures cycles != [] <==> Cyclic(g)
  {
    if cycles != [] {
      var z := cycles[0];
      assert ClosedWalk(g, z + [z[0]]);
    }
    if Cyclic(g) {
      var c :| ClosedWalk(g, c);
      var z := ClosedWalkHasSimpleCycle(g, c);
      assert Known(cycles, z);
    }
  }

  /** The dictionary carried by topsort's error has the same simple cycles as the whole graph. */
  lemma ResidualHasSameCycles(g: Children, v: set<Node>, np: Counts, children: Children, z: seq<Node>)
    requires g.Keys <= v && Leftover(g, v, np, children)
    ensures SimpleCycle(g, z) <==> SimpleCycle(children, z)
  {
    if SimpleCycle(g, z) {
      forall x | x in z ensures x in np {
        var i :| 0 <= i < |z| && z[i] == x;
        OnSimpleCycle(g, z, i);
      }
      forall i | 0 <= i < |z| - 1 ensures Edge(children, z[i], z[i+1]) {
        assert Edge(g, z[i], z[i+1]);
      }
    }
    if SimpleCycle(children, z) {
      forall i | 0 <= i < |z| - 1 ensures Edge(g, z[i], z[i+1]) {
        assert Edge(children, z[i], z[i+1]);
      }
    }
  }

  lemma OnSimpleCycle(g: Children, z: seq<Node>, i: nat)
    requires SimpleCycle(g, z) && i < |z|
    ensures z[i] in g && BehindCycle(g, z[i])
  {
    var c := z + [z[0]];
    assert Edge(g, c[i], c[i+1]);
    assert ClosedWalk(g, c);
    assert WalkBetween(g, z[..i+1], c[0], z[i]);
  }

  /** Two enumerations found the same cycles, each one up to rotation. */
  ghost predicate SameUpToRotation(cs: seq<seq<Node>>, ds: seq<seq<Node>>) {
    && |cs| == |ds|
    && (forall k :: 0 <= k < |cs| ==> Known(ds, cs[k]))
    && (forall k :: 0 <= k < |ds| ==> Known(cs, ds[k]))
  }

  /** Whatever the dictionary orders, any two runs yield equally many cycles, the same up to rotation. */
  lemma EnumerationsAgree(g: Children, h: Children, cs: seq<seq<Node>>, ds: seq<seq<Node>>)
    requires EnumeratesCycles(g, cs) && EnumeratesCycles(h, ds)
    requires forall z :: SimpleCycle(g, z) <==> SimpleCycle(h, z)
    ensures SameUpToRotation(cs, ds)
  {
    NotMore(g, cs, ds);
    NotMore(h, ds, cs);
  }

  lemma NotMore(g: Children, cs: seq<seq<Node>>, ds: seq<seq<Node>>)
    requires DistinctCycles(g, cs)
    requires forall k :: 0 <= k < |cs| ==> Known(ds, cs[k])
    ensures |cs| <= |ds|
  {
    var js := Matches(cs, ds, |cs|);
    forall i, j | 0 <= i < j < |js| ensures js[i] != js[j] {
      if js[i] == js[j] {
        Symmetric(ds[js[i]], cs[i]);
        Transitive(cs[i], ds[js[i]], cs[j]);
      }
    }
    NoDupFits(js, Below(|ds|));
  }

  lemma {:induction false} Matches(cs: seq<seq<Node>>, ds: seq<seq<Node>>, n: nat) returns (js: seq<int>)
    requires n <= |cs| && forall k :: 0 <= k < |cs| ==> Known(ds, cs[k])
    ensures |js| == n && forall i :: 0 <= i < n ==> 0 <= js[i] < |ds| && IsRotation(ds[js[i]], cs[i])
  {
    js := [];
    if n > 0 {
      js := Matches(cs, ds, n - 1);
      assert Known(ds, cs[n-1]);
      var k :| 0 <= k < |ds| && IsRotation(ds[k], cs[n-1]);
      js := js + [k];
    }
  }

  ghost function Below(n: nat): (s: set<int>)
    ensures |s| == n && forall k :: k in s <==> 0 <= k < n
  {
    if n == 0 then {} else Below(n - 1) + {n - 1}
  }

  /** Debugging a CycleError: searching its dictionary finds all cycles of the input, and at least one. */
  lemma ResidualSearch(pairs: seq<(Node, Node)>, r: SortOutcome, whole: seq<seq<Node>>, residual: seq<seq<Node>>)
    requires r.CycleError? <==> Cyclic(GraphOf(pairs))
    requires r.CycleError? ==> Leftover(GraphOf(pairs), Items(pairs), r.numParents, r.children)
    requires EnumeratesCycles(GraphOf(pairs), whole)
    requires r.CycleError? ==> EnumeratesCycles(r.children, residual)
    ensures r.CycleError? <==> whole != []
    ensures r.CycleError? ==> SameUpToRotation(whole, residual) && residual != []
  {
    YieldsIffCyclic(GraphOf(pairs), whole);
    if r.CycleError? {
      forall z ensures SimpleCycle(GraphOf(pairs), z) <==> SimpleCycle(r.children, z) {
        ResidualHasSameCycles(GraphOf(pairs), Items(pairs), r.numParents, r.children, z);
      }
      EnumerationsAgree(GraphOf(pairs), r.children, whole, residual);
    }
  }
}
