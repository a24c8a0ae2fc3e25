/**
 utils/print-introspected-doxygen.cc: when the output of Gather holds a record twice. Uniquefy is there to
 keep that from happening, but works on a copy.
 */
module TypeDuplicates {
  import opened Basics
  import opened Sequences
  import opened TypeGather

  // ---------- path elements can be read back from a joined path

  /** A name that cannot be taken for two path elements, or for the index of an element before it. */
  predicate Simple(name: string) {
    '/' !in name && name != "[i]"
  }

  /** A path element: a simple name, or one with an index behind it. */
  predicate Element(e: string) {
    Simple(e) || (Indexed(e) && Simple(e[..|e|-4]))
  }

  predicate Indexed(e: string) {
    |e| >= 4 && e[|e|-4..] == "/[i]"
  }

  predicate AtBoundary(s: string) {
    s == "" || s[0] == '/'
  }

  lemma {:induction false} JoinedConcat(a: seq<string>, b: seq<string>)
    ensures Joined(a + b) == Joined(a) + Joined(b)
    decreases |b|
  {
    if b == [] {
      assert a + b == a;
    } else {
      JoinedConcat(a, b[..|b|-1]);
      assert (a + b)[..|a+b|-1] == a + b[..|b|-1];
      assert (a + b)[|a+b|-1] == b[|b|-1];
    }
  }

  lemma JoinedFirst(a: seq<string>)
    requires a != []
    ensures Joined(a) == "/" + (a[0] + Joined(a[1..]))
    ensures AtBoundary(Joined(a[1..]))
  {
    JoinedConcat([a[0]], a[1..]);
    assert a == [a[0]] + a[1..];
    assert Joined([a[0]]) == "/" + a[0] by {
      assert [a[0]][..0] == [];
      assert Joined([]) == [];
    }
    if a[1..] != [] {
      JoinedFirstIsSlash(a[1..]);
    }
  }

  lemma {:induction false} JoinedFirstIsSlash(a: seq<string>)
    requires a != []
    ensures Joined(a) != "" && Joined(a)[0] == '/'
  {
    if |a| > 1 {
      JoinedFirstIsSlash(a[..|a|-1]);
    } else {
      assert a[..0] == [] && Joined([]) == [];
    }
  }

  /** What is in front of the first slash is determined, and so is what follows. */
  lemma StemUnique(n: string, m: string, x: string, y: string)
    requires '/' !in n && '/' !in m && AtBoundary(x) && AtBoundary(y) && n + x == m + y
    ensures n == m && x == y
  {
    var s := n + x;
    assert forall k :: 0 <= k < |n| ==> s[k] == n[k] && n[k] != '/';
    assert forall k :: 0 <= k < |m| ==> s[k] == m[k] && m[k] != '/';
    assert |n| < |s| ==> s[|n|] == '/';
    assert |m| < |s| ==> s[|m|] == '/';
    assert |n| == |m|;
    assert n == (n + x)[..|n|] && m == (m + y)[..|m|];
    assert x == (n + x)[|n|..] && y == (m + y)[|m|..];
  }

  ghost function Stem(e: string): string {
    if Indexed(e) then e[..|e|-4] else e
  }

  ghost function Suffix(e: string): string {
    if Indexed(e) then "/[i]" else ""
  }

  lemma ElementParts(e: string)
    requires Element(e)
    ensures Simple(Stem(e)) && e == Stem(e) + Suffix(e) && AtBoundary(Suffix(e))
  {
    if Indexed(e) {
      assert e[|e|-4] == e[|e|-4..][0];
      assert e == e[..|e|-4] + e[|e|-4..];
    }
  }

  lemma Cancel(p: string, x: string, y: string)
    requires p + x == p + y
    ensures x == y
  {
    assert x == (p + x)[|p|..] && y == (p + y)[|p|..];
  }

  /** A joined path, taken apart behind the first stem. */
  lemma JoinedParts(a: seq<string>) returns (rest: string)
    requires a != [] && Element(a[0])
    ensures rest == Suffix(a[0]) + Joined(a[1..]) && AtBoundary(rest)
    ensures Joined(a) == "/" + (Stem(a[0]) + rest) && Simple(Stem(a[0]))
  {
    rest := Suffix(a[0]) + Joined(a[1..]);
    JoinedFirst(a);
    ElementParts(a[0]);
    Associative(Stem(a[0]), Suffix(a[0]), Joined(a[1..]));
  }

  /** No path of simple elements goes on with an index. */
  lemma IndexIsNoElement(rest: string, b: seq<string>, j: string)
    requires AtBoundary(rest) && (b != [] ==> Element(b[0])) && j == Joined(b)
    ensures "/" + ("[i]" + rest) != j
  {
    if b != [] && "/" + ("[i]" + rest) == j {
      var more := JoinedParts(b);
      Cancel("/", "[i]" + rest, Stem(b[0]) + more);
      StemUnique("[i]", Stem(b[0]), rest, more);
    }
  }

  /** Two lists of path elements that are joined to the same path are the same. */
  lemma {:induction false} JoinedInjective(a: seq<string>, b: seq<string>)
    requires (forall i :: 0 <= i < |a| ==> Element(a[i])) && (forall i :: 0 <= i < |b| ==> Element(b[i]))
    requires Joined(a) == Joined(b)
    ensures a == b
    decreases |a|
  {
    if a == [] {
      if b != [] { JoinedFirstIsSlash(b); }
    } else if b == [] {
      JoinedFirstIsSlash(a);
    } else {
      FirstElements(a, b);
      JoinedInjective(a[1..], b[1..]);
      assert a == [a[0]] + a[1..] && b == [b[0]] + b[1..];
    }
  }

  lemma FirstElements(a: seq<string>, b: seq<string>)
    requires a != [] && b != [] && Joined(a) == Joined(b)
    requires (forall i :: 0 <= i < |a| ==> Element(a[i])) && (forall i :: 0 <= i < |b| ==> Element(b[i]))
    ensures a[0] == b[0] && Joined(a[1..]) == Joined(b[1..])
  {
    var x := JoinedParts(a);
    var y := JoinedParts(b);
    Cancel("/", Stem(a[0]) + x, Stem(b[0]) + y);
    StemUnique(Stem(a[0]), Stem(b[0]), x, y);
    ElementParts(a[0]);
    ElementParts(b[0]);
    SameSuffix(a, b, x);
  }

  lemma SameSuffix(a: seq<string>, b: seq<string>, x: string)
    requires a != [] && b != [] && Stem(a[0]) == Stem(b[0])
    requires (forall i :: 0 <= i < |a| ==> Element(a[i])) && (forall i :: 0 <= i < |b| ==> Element(b[i]))
    requires x == Suffix(a[0]) + Joined(a[1..]) == Suffix(b[0]) + Joined(b[1..])
    ensures Suffix(a[0]) == Suffix(b[0]) && Joined(a[1..]) == Joined(b[1..])
  {
    if Indexed(a[0]) && !Indexed(b[0]) {
      IndexBehind(x, a[1..], b[1..]);
    } else if !Indexed(a[0]) && Indexed(b[0]) {
      IndexBehind(x, b[1..], a[1..]);
    } else {
      Cancel(Suffix(a[0]), Joined(a[1..]), Joined(b[1..]));
    }
  }

  lemma IndexBehind(x: string, a: seq<string>, b: seq<string>)
    requires forall i :: 0 <= i < |b| ==> Element(b[i])
    requires x == "/[i]" + Joined(a)
    ensures x != Joined(b)
  {
    assert AtBoundary(Joined(a)) by {
      if a != [] { JoinedFirstIsSlash(a); }
    }
    assert x == "/" + ("[i]" + Joined(a));
    IndexIsNoElement(Joined(a), b, Joined(b));
  }

  // ---------- two walks with one record

  /** The type in which a walk ends. */
  ghost function End(g: Graph, tid: TypeId, w: seq<nat>): TypeId
    requires ValidWalk(g, tid, w)
  {
    Visited(g, tid, w)[|w|]
  }

  lemma {:induction false} EndInGraph(g: Graph, tid: TypeId, w: seq<nat>)
    requires ValidWalk(g, tid, w)
    ensures End(g, tid, w) < |g|
    decreases |w|
  {
    if w != [] {
      EndInGraph(g, g[tid][w[0]].target, w[1..]);
    }
  }

  /** A walk's first step. */
  lemma WalkBegins(g: Graph, tid: TypeId, w: seq<nat>, i: nat, rest: seq<nat>)
    requires tid < |g| && i < |g[tid]| && ValidWalk(g, g[tid][i].target, rest) && w == [i] + rest
    ensures ValidWalk(g, tid, w)
    ensures Visited(g, tid, w) == [tid] + Visited(g, g[tid][i].target, rest)
    ensures Names(g, tid, w) == [g[tid][i].name] + Names(g, g[tid][i].target, rest)
  {
    assert w[1..] == rest;
  }

  lemma {:induction false} WalkExtends(g: Graph, tid: TypeId, w: seq<nat>, i: nat)
    requires ValidGraph(g) && ValidWalk(g, tid, w) && End(g, tid, w) < |g| && i < |g[End(g, tid, w)]|
    ensures ValidWalk(g, tid, w + [i])
    ensures Visited(g, tid, w + [i]) == Visited(g, tid, w) + [g[End(g, tid, w)][i].target]
    ensures Names(g, tid, w + [i]) == Names(g, tid, w) + [g[End(g, tid, w)][i].name]
    decreases |w|
  {
    if w == [] {
      WalkBegins(g, tid, [i], i, []);
      assert w + [i] == [i];
    } else {
      var next, rest := g[tid][w[0]], w[1..];
      WalkBegins(g, tid, w, w[0], rest);
      assert End(g, tid, w) == End(g, next.target, rest);
      var e := g[End(g, tid, w)][i];
      WalkExtends(g, next.target, rest, i);
      assert w + [i] == [w[0]] + (rest + [i]);
      WalkBegins(g, tid, w + [i], w[0], rest + [i]);
      Associative([tid], Visited(g, next.target, rest), [e.target]);
      Associative([next.name], Names(g, next.target, rest), [e.name]);
    }
  }

  lemma {:induction false} WalkPrefix(g: Graph, tid: TypeId, w: seq<nat>, k: nat)
    requires ValidWalk(g, tid, w) && k < |w|
    ensures ValidWalk(g, tid, w[..k]) && Visited(g, tid, w[..k]) == Visited(g, tid, w)[..k+1]
    ensures End(g, tid, w[..k]) < |g| && w[k] < |g[End(g, tid, w[..k])]|
    ensures Visited(g, tid, w)[k+1] == g[End(g, tid, w[..k])][w[k]].target
    decreases |w|
  {
    if k > 0 {
      assert w[..k][1..] == w[1..][..k-1];
      WalkPrefix(g, g[tid][w[0]].target, w[1..], k - 1);
    }
  }

  /** No two edges of a type have the same name, unless they lead to the same type. */
  ghost predicate NameFixesTarget(g: Graph) {
    forall t, e, f :: 0 <= t < |g| && e in g[t] && f in g[t] && e.name == f.name ==> e == f
  }

  ghost predicate Readable(g: Graph) {
    forall t, e :: 0 <= t < |g| && e in g[t] ==> Element(e.name)
  }

  lemma {:induction false} NamesReadable(g: Graph, tid: TypeId, w: seq<nat>)
    requires Readable(g) && ValidWalk(g, tid, w)
    ensures forall i :: 0 <= i < |Names(g, tid, w)| ==> Element(Names(g, tid, w)[i])
    decreases |w|
  {
    if w != [] {
      NamesReadable(g, g[tid][w[0]].target, w[1..]);
      assert g[tid][w[0]] in g[tid];
    }
  }

  /** Different walks along the same names part at two copies of one edge. */
  lemma {:induction false} FirstDifference(g: Graph, tid: TypeId, w: seq<nat>, u: seq<nat>) returns (k: nat)
    requires NameFixesTarget(g) && ValidWalk(g, tid, w) && ValidWalk(g, tid, u) && w != u
    requires Names(g, tid, w) == Names(g, tid, u)
    ensures k < |w| && k < |u| && w[..k] == u[..k] && w[k] != u[k]
    ensures ValidWalk(g, tid, w[..k]) && End(g, tid, w[..k]) < |g|
    ensures var es := g[End(g, tid, w[..k])];
            w[k] < |es| && u[k] < |es| && es[w[k]] == es[u[k]]
    decreases |w|
  {
    FirstEdge(g, tid, w, u);
    if w[0] != u[0] {
      k := 0;
    } else {
      var next, rest, other := g[tid][w[0]].target, w[1..], u[1..];
      assert w == [w[0]] + rest && u == [w[0]] + other;
      k := FirstDifference(g, next, rest, other);
      assert w[..k+1] == [w[0]] + rest[..k] && u[..k+1] == [w[0]] + other[..k];
      WalkBegins(g, tid, w[..k+1], w[0], rest[..k]);
      k := k + 1;
    }
  }

  lemma FirstEdge(g: Graph, tid: TypeId, w: seq<nat>, u: seq<nat>)
    requires NameFixesTarget(g) && ValidWalk(g, tid, w) && ValidWalk(g, tid, u) && w != u
    requires Names(g, tid, w) == Names(g, tid, u)
    ensures w != [] && u != [] && g[tid][w[0]] == g[tid][u[0]]
    ensures Names(g, g[tid][w[0]].target, w[1..]) == Names(g, g[tid][u[0]].target, u[1..])
  {
    assert w != [] && u != [] by {
      assert |Names(g, tid, w)| == |Names(g, tid, u)|;
    }
    var e, f := g[tid][w[0]], g[tid][u[0]];
    assert e.name == Names(g, tid, w)[0] == Names(g, tid, u)[0] == f.name;
    assert e in g[tid] && f in g[tid];
    assert Names(g, e.target, w[1..]) == Names(g, tid, w)[1..] == Names(g, tid, u)[1..];
  }

  // ---------- exactly when a record occurs twice

  /** The walk w, on which no type occurs twice, ends at a type that has the edge e twice; and e leads on to a
      type that has not been seen. */
  ghost predicate Doubled(g: Graph, tid: TypeId, processed: seq<TypeId>, w: seq<nat>, e: Edge) {
    && NonRepeating(g, tid, processed, w)
    && End(g, tid, w) < |g| && multiset(g[End(g, tid, w)])[e] >= 2
    && e.target !in Visited(g, tid, w) && e.target !in processed
  }

  lemma TwoPlaces<T>(s: seq<T>, x: T) returns (i: nat, j: nat)
    requires multiset(s)[x] >= 2
    ensures i < j < |s| && s[i] == x == s[j]
  {
    assert x in s;
    i :| 0 <= i < |s| && s[i] == x;
    var others := s[..i] + s[i+1..];
    assert s == s[..i] + [x] + s[i+1..];
    assert multiset(s) == multiset(others) + multiset{x};
    assert x in others;
    var k :| 0 <= k < |others| && others[k] == x;
    if k < i {
      i, j := k, i;
    } else {
      j := k + 1;
    }
  }

  lemma CountedTwice<T>(s: seq<T>, i: nat, j: nat)
    requires i < |s| && j < |s| && i != j && s[i] == s[j]
    ensures multiset(s)[s[i]] >= 2
  {
    var a, b := if i < j then i else j, if i < j then j else i;
    assert s == s[..a] + [s[a]] + s[a+1..b] + [s[b]] + s[b+1..];
  }

  lemma StepNonRepeating(g: Graph, tid: TypeId, processed: seq<TypeId>, w: seq<nat>, i: nat)
    requires ValidGraph(g) && NonRepeating(g, tid, processed, w) && End(g, tid, w) < |g| && i < |g[End(g, tid, w)]|
    requires var t := g[End(g, tid, w)][i].target;
             t !in Visited(g, tid, w) && t !in processed
    ensures NonRepeating(g, tid, processed, w + [i])
  {
    WalkExtends(g, tid, w, i);
    NoDupConcat(Visited(g, tid, w), [g[End(g, tid, w)][i].target]);
  }

  /** A doubled edge makes for two equal records, whatever the names are. */
  lemma DoubledRecord(g: Graph, tid: TypeId, path: seq<string>, processed: seq<TypeId>, w: seq<nat>, e: Edge)
    requires ValidGraph(g) && tid < |g| && Doubled(g, tid, processed, w, e)
    ensures !NoDup(Gathered(g, tid, path, processed))
  {
    var i, j := TwoPlaces(g[End(g, tid, w)], e);
    StepNonRepeating(g, tid, processed, w, i);
    StepNonRepeating(g, tid, processed, w, j);
    WalkExtends(g, tid, w, i);
    WalkExtends(g, tid, w, j);
    assert (w + [i])[|w|] != (w + [j])[|w|];
    assert RecordOf(g, tid, path, w + [i]) == RecordOf(g, tid, path, w + [j]);
    EqualRecords(g, tid, path, processed, w + [i], w + [j]);
  }

  lemma EqualRecords(g: Graph, tid: TypeId, path: seq<string>, processed: seq<TypeId>, w: seq<nat>, u: seq<nat>)
    requires ValidGraph(g) && tid < |g| && w != u
    requires NonRepeating(g, tid, processed, w) && NonRepeating(g, tid, processed, u)
    requires RecordOf(g, tid, path, w) == RecordOf(g, tid, path, u)
    ensures !NoDup(Gathered(g, tid, path, processed))
  {
    var ws, rs := Walks(g, tid, processed), Gathered(g, tid, path, processed);
    OneRecordPerWalk(g, tid, path, processed);
    var p :| 0 <= p < |ws| && ws[p] == w;
    var q :| 0 <= q < |ws| && ws[q] == u;
    assert rs[p] == rs[q] && p != q;
  }

  /** Two equal records come from walks that part at a doubled edge. */
  lemma EqualRecordsDoubled(g: Graph, tid: TypeId, path: seq<string>, processed: seq<TypeId>, w: seq<nat>, u: seq<nat>)
    returns (v: seq<nat>, e: Edge)
    requires ValidGraph(g) && NameFixesTarget(g) && Readable(g) && tid < |g| && w != u
    requires NonRepeating(g, tid, processed, w) && NonRepeating(g, tid, processed, u)
    requires RecordOf(g, tid, path, w) == RecordOf(g, tid, path, u)
    ensures Doubled(g, tid, processed, v, e)
  {
    JoinedConcat(path, Names(g, tid, w));
    JoinedConcat(path, Names(g, tid, u));
    Cancel(Joined(path), Joined(Names(g, tid, w)), Joined(Names(g, tid, u)));
    NamesReadable(g, tid, w);
    NamesReadable(g, tid, u);
    JoinedInjective(Names(g, tid, w), Names(g, tid, u));
    var k := FirstDifference(g, tid, w, u);
    v := w[..k];
    var es := g[End(g, tid, v)];
    e := es[w[k]];
    CountedTwice(es, w[k], u[k]);
    PrefixDoubled(g, tid, processed, w, k);
  }

  lemma PrefixDoubled(g: Graph, tid: TypeId, processed: seq<TypeId>, w: seq<nat>, k: nat)
    requires NonRepeating(g, tid, processed, w) && k < |w|
    ensures NonRepeating(g, tid, processed, w[..k])
    ensures End(g, tid, w[..k]) < |g| && w[k] < |g[End(g, tid, w[..k])]|
    ensures var t := g[End(g, tid, w[..k])][w[k]].target;
            t !in Visited(g, tid, w[..k]) && t !in processed
  {
    WalkPrefix(g, tid, w, k);
    var v := Visited(g, tid, w);
    assert forall i :: 0 <= i <= k ==> v[i] != v[k+1];
    assert v[k+1] in v;
  }

  /** DoGather records nothing twice exactly when no walk ends at a type with a doubled edge to a type that has
      not been seen. */
  lemma NoDuplicatesIff(g: Graph, tid: TypeId, path: seq<string>, processed: seq<TypeId>)
    requires ValidGraph(g) && NameFixesTarget(g) && Readable(g) && tid < |g|
    ensures NoDup(Gathered(g, tid, path, processed)) <==> forall w, e :: !Doubled(g, tid, processed, w, e)
  {
    var ws, rs := Walks(g, tid, processed), Gathered(g, tid, path, processed);
    if w, e :| Doubled(g, tid, processed, w, e) {
      DoubledRecord(g, tid, path, processed, w, e);
    }
    if !NoDup(rs) {
      var p, q :| 0 <= p < q < |rs| && rs[p] == rs[q];
      OneRecordPerWalk(g, tid, path, processed);
      assert ws[p] in ws && ws[q] in ws;
      var v, e := EqualRecordsDoubled(g, tid, path, processed, ws[p], ws[q]);
    }
  }

  // ---------- the same for a registry

  function NameOf(a: Attribute): string {
    match a
    case PointerTo(name, _) => name
    case VectorOf(name, _) => name
    case Plain(name) => name
  }

  predicate Dollar(name: string) {
    name != "" && name[0] == '$'
  }

  /** Attributes of a type have different names, of the form that path elements need. */
  ghost predicate AttributesNamed(attributes: seq<Attribute>) {
    && (forall i :: 0 <= i < |attributes| ==> Simple(NameOf(attributes[i])) && !Dollar(NameOf(attributes[i])))
    && (forall i, j :: 0 <= i < j < |attributes| ==> NameOf(attributes[i]) != NameOf(attributes[j]))
  }

  /** Types have different names as well, without a slash. */
  ghost predicate WellNamed(reg: Registry) {
    && (forall t :: 0 <= t < |reg.types| ==> AttributesNamed(reg.types[t].attributes) && '/' !in reg.types[t].name)
    && (forall t, u :: 0 <= t < u < |reg.types| ==> reg.types[t].name != reg.types[u].name)
  }

  /** The edge by which a type is reached as a child or an aggregate. */
  function TypeEdge(reg: Registry, u: TypeId): Edge
    requires reg.Has(u)
  {
    Edge("$" + reg.types[u].name, u)
  }

  predicate IsTypeEdge(reg: Registry, e: Edge) {
    reg.Has(e.target) && e == TypeEdge(reg, e.target)
  }

  /** How often the aggregation of t and u has been recorded, in either order. */
  ghost function TimesRecorded(aggregates: seq<(TypeId, TypeId)>, t: TypeId, u: TypeId): nat {
    if aggregates == [] then 0
    else
      TimesRecorded(aggregates[..|aggregates|-1], t, u)
      + One(aggregates[|aggregates|-1] == (t, u) || aggregates[|aggregates|-1] == (u, t))
  }

  /** The aggregation of t and u has been recorded twice, or once while u is also a child of t. */
  ghost predicate LinkedTwice(reg: Registry, aggregates: seq<(TypeId, TypeId)>, t: TypeId, u: TypeId) {
    reg.Has(u) && TimesRecorded(aggregates, t, u) + One((u, t) in reg.childOf) >= 2
  }

  lemma {:induction false} AggregateEdgeCount(reg: Registry, tid: TypeId, aggregates: seq<(TypeId, TypeId)>, e: Edge)
    requires ValidAggregates(reg, aggregates)
    ensures multiset(AggregateEdges(reg, tid, aggregates))[e]
         == if IsTypeEdge(reg, e) then TimesRecorded(aggregates, tid, e.target) else 0
  {
    if aggregates != [] {
      AggregateEdgeCount(reg, tid, aggregates[..|aggregates|-1], e);
      AggregateEdgeIs(reg, tid, aggregates[|aggregates|-1], e);
    }
  }

  lemma AggregateEdgeIs(reg: Registry, tid: TypeId, pair: (TypeId, TypeId), e: Edge)
    requires reg.Has(pair.0) && reg.Has(pair.1)
    ensures multiset(AggregateEdge(reg, tid, pair))[e]
         == One(IsTypeEdge(reg, e) && (pair == (tid, e.target) || pair == (e.target, tid)))
  {
  }

  predicate IsChildEdge(reg: Registry, tid: TypeId, e: Edge) {
    IsTypeEdge(reg, e) && (e.target, tid) in reg.childOf
  }

  /** One part of many holds all the copies of x. */
  lemma {:induction false} FlattenCount<T>(parts: seq<seq<T>>, x: T, k: nat, count: nat)
    requires forall i :: 0 <= i < |parts| ==> multiset(parts[i])[x] == if i == k then count else 0
    ensures multiset(Flatten(parts))[x] == if k < |parts| then count else 0
  {
    if parts != [] {
      FlattenCount(parts[..|parts|-1], x, k, count);
      CountConcat(Flatten(parts[..|parts|-1]), parts[|parts|-1], x);
    }
  }

  ghost function ChildParts(reg: Registry, tid: TypeId, n: nat): (parts: seq<seq<Edge>>)
    requires n <= |reg.types|
  {
    seq(n, child requires 0 <= child < n => ChildEdge(reg, tid, child))
  }

  lemma {:induction false} ChildEdgesFlatten(reg: Registry, tid: TypeId, n: nat)
    requires n <= |reg.types|
    ensures ChildEdges(reg, tid, n) == Flatten(ChildParts(reg, tid, n))
  {
    if n > 0 {
      ChildEdgesFlatten(reg, tid, n - 1);
      FlattenMore(ChildParts(reg, tid, n - 1), ChildEdge(reg, tid, n - 1));
      assert ChildParts(reg, tid, n) == ChildParts(reg, tid, n - 1) + [ChildEdge(reg, tid, n - 1)];
    }
  }

  lemma ChildEdgeCount(reg: Registry, tid: TypeId, e: Edge)
    ensures multiset(ChildEdges(reg, tid, |reg.types|))[e] == One(IsChildEdge(reg, tid, e))
  {
    var parts := ChildParts(reg, tid, |reg.types|);
    forall i | 0 <= i < |parts|
      ensures multiset(parts[i])[e] == if i == e.target then One(IsChildEdge(reg, tid, e)) else 0
    {
      ChildEdgeIs(reg, tid, i, e);
    }
    FlattenCount(parts, e, e.target, One(IsChildEdge(reg, tid, e)));
    ChildEdgesFlatten(reg, tid, |reg.types|);
  }

  lemma ChildEdgeIs(reg: Registry, tid: TypeId, child: TypeId, e: Edge)
    requires reg.Has(child)
    ensures multiset(ChildEdge(reg, tid, child))[e] == if e.target == child then One(IsChildEdge(reg, tid, e)) else 0
  {
  }

  lemma CountConcat<T>(a: seq<T>, b: seq<T>, x: T)
    ensures multiset(a + b)[x] == multiset(a)[x] + multiset(b)[x]
  {
  }

  lemma {:induction false} AttributeMember(reg: Registry, attributes: seq<Attribute>, e: Edge) returns (i: nat)
    requires e in AttributeEdges(reg, attributes)
    ensures i < |attributes| && AttributeEdge(reg, attributes[i]) == [e]
  {
    var n := |attributes| - 1;
    if e in AttributeEdges(reg, attributes[..n]) {
      i := AttributeMember(reg, attributes[..n], e);
    } else {
      i := n;
    }
  }

  lemma AttributeEdgeName(reg: Registry, a: Attribute, e: Edge)
    requires AttributeEdge(reg, a) == [e] && Simple(NameOf(a)) && !Dollar(NameOf(a))
    ensures Element(e.name) && !Dollar(e.name) && Stem(e.name) == NameOf(a)
  {
    assert e == [e][0] == AttributeEdge(reg, a)[0];
    if a.VectorOf? {
      assert e.name[|e.name|-4..] == "/[i]" && e.name[..|e.name|-4] == NameOf(a);
    } else {
      IndexHasSlash(e.name);
    }
  }

  lemma IndexHasSlash(name: string)
    ensures Indexed(name) ==> '/' in name
  {
    if Indexed(name) {
      assert name[|name|-4] == name[|name|-4..][0];
    }
  }

  /** An attribute's edge is told by its name. */
  lemma SameAttribute(reg: Registry, attributes: seq<Attribute>, e: Edge, f: Edge)
    requires AttributesNamed(attributes) && e.name == f.name
    requires e in AttributeEdges(reg, attributes) && f in AttributeEdges(reg, attributes)
    ensures e == f
  {
    var i := AttributeMember(reg, attributes, e);
    var j := AttributeMember(reg, attributes, f);
    AttributeEdgeName(reg, attributes[i], e);
    AttributeEdgeName(reg, attributes[j], f);
    assert i == j;
    assert [e] == [f] && [e][0] == [f][0];
  }

  lemma {:induction false} AttributeEdgeOnce(reg: Registry, attributes: seq<Attribute>, e: Edge)
    requires AttributesNamed(attributes)
    ensures multiset(AttributeEdges(reg, attributes))[e] <= 1
    ensures e in AttributeEdges(reg, attributes) ==> Element(e.name) && !Dollar(e.name)
  {
    if e in AttributeEdges(reg, attributes) {
      var k := AttributeMember(reg, attributes, e);
      AttributeEdgeName(reg, attributes[k], e);
    }
    if attributes != [] {
      var n := |attributes| - 1;
      var front, last := attributes[..n], attributes[n];
      AttributeEdgeOnce(reg, front, e);
      AttributeEdgeShort(reg, last, e);
      CountConcat(AttributeEdges(reg, front), AttributeEdge(reg, last), e);
      if e in AttributeEdges(reg, front) {
        AttributeNotAgain(reg, attributes, e);
      }
    }
  }

  lemma AttributeNotAgain(reg: Registry, attributes: seq<Attribute>, e: Edge)
    requires attributes != [] && AttributesNamed(attributes) && e in AttributeEdges(reg, attributes[..|attributes|-1])
    ensures AttributeEdge(reg, attributes[|attributes|-1]) != [e]
  {
    var n := |attributes| - 1;
    var i := AttributeMember(reg, attributes[..n], e);
    AttributeEdgeName(reg, attributes[i], e);
    if AttributeEdge(reg, attributes[n]) == [e] {
      AttributeEdgeName(reg, attributes[n], e);
    }
  }

  lemma AttributeEdgeShort(reg: Registry, a: Attribute, e: Edge)
    ensures multiset(AttributeEdge(reg, a))[e] == One(AttributeEdge(reg, a) == [e])
  {
  }

  /** The edges to children and aggregates, and how often each one is there. */
  lemma TypeEdgeCount(reg: Registry, aggregates: seq<(TypeId, TypeId)>, tid: TypeId, e: Edge)
    requires ValidAggregates(reg, aggregates) && reg.Has(tid)
    ensures multiset(EdgesOf(reg, aggregates, tid))[e]
         == multiset(AttributeEdges(reg, reg.types[tid].attributes))[e]
            + One(IsChildEdge(reg, tid, e))
            + if IsTypeEdge(reg, e) then TimesRecorded(aggregates, tid, e.target) else 0
  {
    var a, b := AttributeEdges(reg, reg.types[tid].attributes), ChildEdges(reg, tid, |reg.types|);
    var c := AggregateEdges(reg, tid, aggregates);
    CountConcat(b, c, e);
    CountConcat(a, b + c, e);
    ChildEdgeCount(reg, tid, e);
    AggregateEdgeCount(reg, tid, aggregates, e);
  }

  lemma DollarElement(name: string)
    requires '/' !in name
    ensures Element("$" + name) && Dollar("$" + name)
  {
  }

  /** An edge is twice among those of a type exactly if it leads to a type linked to it twice. */
  lemma DoubledEdgeIff(reg: Registry, aggregates: seq<(TypeId, TypeId)>, tid: TypeId, e: Edge)
    requires ValidAggregates(reg, aggregates) && reg.Has(tid) && AttributesNamed(reg.types[tid].attributes)
    ensures multiset(EdgesOf(reg, aggregates, tid))[e] >= 2
       <==> IsTypeEdge(reg, e) && LinkedTwice(reg, aggregates, tid, e.target)
  {
    TypeEdgeCount(reg, aggregates, tid, e);
    AttributeEdgeOnce(reg, reg.types[tid].attributes, e);
  }

  /** Every edge of a type is that of an attribute, or leads to a child or an aggregate. */
  lemma EdgeKind(reg: Registry, aggregates: seq<(TypeId, TypeId)>, tid: TypeId, e: Edge)
    requires ValidAggregates(reg, aggregates) && reg.Has(tid) && WellNamed(reg)
    requires e in EdgesOf(reg, aggregates, tid)
    ensures Element(e.name)
    ensures if Dollar(e.name) then IsTypeEdge(reg, e) else e in AttributeEdges(reg, reg.types[tid].attributes)
  {
    TypeEdgeCount(reg, aggregates, tid, e);
    AttributeEdgeOnce(reg, reg.types[tid].attributes, e);
    assert multiset(EdgesOf(reg, aggregates, tid))[e] >= 1;
    if e !in AttributeEdges(reg, reg.types[tid].attributes) {
      DollarElement(reg.types[e.target].name);
    }
  }

  lemma SameEdge(reg: Registry, aggregates: seq<(TypeId, TypeId)>, tid: TypeId, e: Edge, f: Edge)
    requires ValidAggregates(reg, aggregates) && reg.Has(tid) && WellNamed(reg)
    requires e in EdgesOf(reg, aggregates, tid) && f in EdgesOf(reg, aggregates, tid) && e.name == f.name
    ensures e == f
  {
    EdgeKind(reg, aggregates, tid, e);
    EdgeKind(reg, aggregates, tid, f);
    if Dollar(e.name) {
      Cancel("$", reg.types[e.target].name, reg.types[f.target].name);
    } else {
      SameAttribute(reg, reg.types[tid].attributes, e, f);
    }
  }

  lemma TypeGraphNamed(reg: Registry, aggregates: seq<(TypeId, TypeId)>)
    requires ValidAggregates(reg, aggregates) && WellNamed(reg)
    ensures NameFixesTarget(TypeGraph(reg, aggregates)) && Readable(TypeGraph(reg, aggregates))
  {
    var g := TypeGraph(reg, aggregates);
    forall t: TypeId, e: Edge | 0 <= t < |g| && e in g[t] ensures Element(e.name) {
      EdgeKind(reg, aggregates, t, e);
    }
    forall t: TypeId, e: Edge, f: Edge | 0 <= t < |g| && e in g[t] && f in g[t] && e.name == f.name ensures e == f {
      SameEdge(reg, aggregates, t, e, f);
    }
  }

  /** The walk w, on which no type occurs twice, ends at a type to which u is linked twice; and u has not been
      seen. */
  ghost predicate MetTwice(reg: Registry, aggregates: seq<(TypeId, TypeId)>, tid: TypeId, processed: seq<TypeId>,
                           w: seq<nat>, u: TypeId)
    requires ValidAggregates(reg, aggregates)
  {
    var g := TypeGraph(reg, aggregates);
    && NonRepeating(g, tid, processed, w) && LinkedTwice(reg, aggregates, End(g, tid, w), u)
    && u !in Visited(g, tid, w) && u !in processed
  }

  lemma DoubledIff(reg: Registry, aggregates: seq<(TypeId, TypeId)>, tid: TypeId, processed: seq<TypeId>,
                   w: seq<nat>, e: Edge)
    requires ValidAggregates(reg, aggregates) && WellNamed(reg)
    ensures Doubled(TypeGraph(reg, aggregates), tid, processed, w, e)
       <==> IsTypeEdge(reg, e) && MetTwice(reg, aggregates, tid, processed, w, e.target)
  {
    var g := TypeGraph(reg, aggregates);
    if NonRepeating(g, tid, processed, w) {
      EndInGraph(g, tid, w);
      DoubledEdgeIff(reg, aggregates, End(g, tid, w), e);
    }
  }

  /** Gather records nothing twice exactly when no walk ends at a type to which one not seen yet is linked
      twice: by one aggregation recorded twice, or by an aggregation with its own descendant. */
  lemma GatherNoDuplicatesIff(reg: Registry, aggregates: seq<(TypeId, TypeId)>, tid: TypeId, path: seq<string>,
                              processed: seq<TypeId>)
    requires reg.Valid() && ValidAggregates(reg, aggregates) && WellNamed(reg) && reg.Has(tid)
    ensures ValidGraph(TypeGraph(reg, aggregates))
    ensures NoDup(Gathered(TypeGraph(reg, aggregates), tid, path, processed))
       <==> forall w, u :: !MetTwice(reg, aggregates, tid, processed, w, u)
  {
    var g := TypeGraph(reg, aggregates);
    TypeGraphValid(reg, aggregates);
    TypeGraphNamed(reg, aggregates);
    NoDuplicatesIff(g, tid, path, processed);
    if w, e :| Doubled(g, tid, processed, w, e) {
      DoubledIff(reg, aggregates, tid, processed, w, e);
    }
    if w, u :| MetTwice(reg, aggregates, tid, processed, w, u) {
      DoubledIff(reg, aggregates, tid, processed, w, TypeEdge(reg, u));
    }
  }

  lemma DoubledAtOnce(g: Graph, tid: TypeId, e: Edge)
    requires tid < |g| && multiset(g[tid])[e] >= 2 && e.target != tid
    ensures Doubled(g, tid, [], [], e)
  {
  }

  /** Whatever the names are: a type linked twice to the one that Gather is called with is recorded twice. */
  lemma LinkedTwiceDuplicates(reg: Registry, aggregates: seq<(TypeId, TypeId)>, tid: TypeId, u: TypeId)
    requires reg.Valid() && ValidAggregates(reg, aggregates) && reg.Has(tid)
    requires LinkedTwice(reg, aggregates, tid, u) && u != tid
    ensures ValidGraph(TypeGraph(reg, aggregates))
    ensures !NoDup(Gathered(TypeGraph(reg, aggregates), tid, [], []))
  {
    var g, e := TypeGraph(reg, aggregates), TypeEdge(reg, u);
    TypeGraphValid(reg, aggregates);
    assert multiset(g[tid])[e] >= 2 by {
      TypeEdgeCount(reg, aggregates, tid, e);
    }
    DoubledAtOnce(g, tid, e);
    DoubledRecord(g, tid, [], [], [], e);
  }

  /** The program records the aggregation of these two types twice. */
  lemma NodeRecordsTwice(reg: Registry, aggregates: seq<(TypeId, TypeId)>)
    requires reg.types == [TypeInfo("ns3::Node", []), TypeInfo("ns3::Icmpv4L4Protocol", [])]
    requires reg.childOf == {} && aggregates == [(0, 1), (0, 1)]
    ensures ValidAggregates(reg, aggregates) && ValidGraph(TypeGraph(reg, aggregates))
    ensures !NoDup(Gathered(TypeGraph(reg, aggregates), 0, [], []))
  {
    assert aggregates[..1] == [(0, 1)] && aggregates[..1][..0] == [];
    assert TimesRecorded(aggregates, 0, 1) == TimesRecorded(aggregates[..1], 0, 1) + 1;
    LinkedTwiceDuplicates(reg, aggregates, 0, 1);
  }
}
