/**
 utils/print-introspected-doxygen.cc: the ways on from a type in terms of the registry, their order, and the records
 they lead to.
 */
module TypeEdges {
  import opened Sequences
  import opened TypeDuplicates
  import opened TypeGather

  // ---------- where the edges of a type come from

  /** Where an edge comes from: attribute k is (0, k), the child with number k is (1, k), aggregation k is (2, k). */
  type Source = (nat, nat)

  ghost predicate Earlier(a: Source, b: Source) {
    a.0 < b.0 || (a.0 == b.0 && a.1 < b.1)
  }

  /** A pointer, but not to Object, is followed under its attribute's name; a container under its name and an index. */
  ghost predicate FromAttribute(reg: Registry, attributes: seq<Attribute>, k: nat, e: Edge) {
    && k < |attributes|
    && ((attributes[k] == PointerTo(e.name, e.target) && e.target != reg.objectType)
        || exists m :: attributes[k] == VectorOf(m, e.target) && e.name == m + "/[i]")
  }

  /** A child is followed under its type name. */
  ghost predicate FromChild(reg: Registry, tid: TypeId, k: nat, e: Edge) {
    reg.Has(k) && (k, tid) in reg.childOf && e.target == k && e.name == "$" + reg.types[k].name
  }

  /** An aggregation is followed from either side, under the type name of the other. */
  ghost predicate FromAggregate(reg: Registry, aggregates: seq<(TypeId, TypeId)>, tid: TypeId, k: nat, e: Edge) {
    && k < |aggregates| && reg.Has(e.target) && e.name == "$" + reg.types[e.target].name
    && (aggregates[k] == (tid, e.target) || aggregates[k] == (e.target, tid))
  }

  ghost predicate From(reg: Registry, aggregates: seq<(TypeId, TypeId)>, tid: TypeId, s: Source, e: Edge)
    requires reg.Has(tid)
  {
    match s.0
    case 0 => FromAttribute(reg, reg.types[tid].attributes, s.1, e)
    case 1 => FromChild(reg, tid, s.1, e)
    case 2 => FromAggregate(reg, aggregates, tid, s.1, e)
    case _ => false
  }

  // ---------- each of the three loops

  ghost function ByAttribute(reg: Registry, attributes: seq<Attribute>): (nat, Edge) -> bool {
    (k: nat, e: Edge) => FromAttribute(reg, attributes, k, e)
  }

  ghost function ByChild(reg: Registry, tid: TypeId): (nat, Edge) -> bool {
    (k: nat, e: Edge) => FromChild(reg, tid, k, e)
  }

  ghost function ByAggregate(reg: Registry, aggregates: seq<(TypeId, TypeId)>, tid: TypeId): (nat, Edge) -> bool {
    (k: nat, e: Edge) => FromAggregate(reg, aggregates, tid, k, e)
  }

  /** The k-th edge comes from place ks[k]; the places are in order, and nothing comes from any other one below n. */
  ghost predicate Places(es: seq<Edge>, ks: seq<nat>, n: nat, from: (nat, Edge) -> bool) {
    && |es| == |ks| && Ascending(ks) && Within(ks, n)
    && (forall i :: 0 <= i < |ks| ==> from(ks[i], es[i]))
    && (forall k: nat, e: Edge :: k < n && from(k, e) ==> k in ks)
  }

  lemma OnePlaceMore(es: seq<Edge>, ks: seq<nat>, n: nat, from: (nat, Edge) -> bool, e: Edge)
    requires Places(es, ks, n, from) && from(n, e)
    ensures Places(es + [e], ks + [n], n + 1, from)
  {
    AscendingMore(ks, n);
  }

  lemma NoPlaceMore(es: seq<Edge>, ks: seq<nat>, n: nat, from: (nat, Edge) -> bool)
    requires Places(es, ks, n, from) && forall e :: !from(n, e)
    ensures Places(es, ks, n + 1, from)
  {
  }

  /** One more place, from which at most one edge comes. */
  lemma PlacesMore(es: seq<Edge>, ks: seq<nat>, n: nat, from: (nat, Edge) -> bool, more: seq<Edge>)
    returns (ls: seq<nat>)
    requires Places(es, ks, n, from)
    requires |more| <= 1 && forall e :: from(n, e) <==> more == [e]
    ensures Places(es + more, ls, n + 1, from)
  {
    if more == [] {
      assert es + more == es;
      NoPlaceMore(es, ks, n, from);
      ls := ks;
    } else {
      var e := more[0];
      assert more == [e];
      OnePlaceMore(es, ks, n, from, e);
      ls := ks + [n];
    }
  }

  lemma AttributeLeads(reg: Registry, attributes: seq<Attribute>, k: nat, e: Edge)
    requires k < |attributes|
    ensures FromAttribute(reg, attributes, k, e) <==> AttributeEdge(reg, attributes[k]) == [e]
    ensures |AttributeEdge(reg, attributes[k])| <= 1
  {
    var es := AttributeEdge(reg, attributes[k]);
    assert es == [e] ==> es[0] == e;
  }

  lemma {:induction false} AttributePlaces(reg: Registry, attributes: seq<Attribute>, n: nat) returns (ks: seq<nat>)
    requires n <= |attributes|
    ensures Places(AttributeEdges(reg, attributes[..n]), ks, n, ByAttribute(reg, attributes))
  {
    ks := [];
    if n > 0 {
      ks := AttributePlaces(reg, attributes, n - 1);
      AttributeEdgesMore(reg, attributes, n - 1);
      var es, more := AttributeEdges(reg, attributes[..n-1]), AttributeEdge(reg, attributes[n-1]);
      forall e ensures FromAttribute(reg, attributes, n - 1, e) <==> more == [e] {
        AttributeLeads(reg, attributes, n - 1, e);
      }
      ks := PlacesMore(es, ks, n - 1, ByAttribute(reg, attributes), more);
    }
  }

  lemma {:induction false} ChildPlaces(reg: Registry, tid: TypeId, n: nat) returns (ks: seq<nat>)
    requires n <= |reg.types|
    ensures Places(ChildEdges(reg, tid, n), ks, n, ByChild(reg, tid))
  {
    ks := [];
    if n > 0 {
      ks := ChildPlaces(reg, tid, n - 1);
      var es, more := ChildEdges(reg, tid, n - 1), ChildEdge(reg, tid, n - 1);
      forall e ensures FromChild(reg, tid, n - 1, e) <==> more == [e] {
        ChildLeads(reg, tid, n - 1, e);
      }
      ks := PlacesMore(es, ks, n - 1, ByChild(reg, tid), more);
    }
  }

  lemma ChildLeads(reg: Registry, tid: TypeId, k: nat, e: Edge)
    requires reg.Has(k)
    ensures FromChild(reg, tid, k, e) <==> ChildEdge(reg, tid, k) == [e]
  {
    var es := ChildEdge(reg, tid, k);
    assert es == [e] ==> es[0] == e;
  }

  lemma {:induction false} AggregatePlaces(reg: Registry, tid: TypeId, aggregates: seq<(TypeId, TypeId)>, n: nat)
    returns (ks: seq<nat>)
    requires n <= |aggregates| && ValidAggregates(reg, aggregates)
    ensures Places(AggregateEdges(reg, tid, aggregates[..n]), ks, n, ByAggregate(reg, aggregates, tid))
  {
    ks := [];
    if n > 0 {
      ks := AggregatePlaces(reg, tid, aggregates, n - 1);
      AggregateEdgesMore(reg, tid, aggregates, n - 1);
      var more := AggregateEdge(reg, tid, aggregates[n-1]);
      forall e ensures FromAggregate(reg, aggregates, tid, n - 1, e) <==> more == [e] {
        AggregateLeads(reg, aggregates, tid, n - 1, e);
      }
      ks := PlacesMore(AggregateEdges(reg, tid, aggregates[..n-1]), ks, n - 1, ByAggregate(reg, aggregates, tid), more);
    }
  }

  lemma AggregateLeads(reg: Registry, aggregates: seq<(TypeId, TypeId)>, tid: TypeId, k: nat, e: Edge)
    requires k < |aggregates| && ValidAggregates(reg, aggregates)
    ensures FromAggregate(reg, aggregates, tid, k, e) <==> AggregateEdge(reg, tid, aggregates[k]) == [e]
  {
    var es, pair := AggregateEdge(reg, tid, aggregates[k]), aggregates[k];
    assert reg.Has(pair.0) && reg.Has(pair.1);
    assert es == [e] ==> es[0] == e;
  }

  // ---------- all three together

  /** The edges come from these sources: in order of attributes, children and aggregations, each of them in registry
      order; and nothing comes from any other source. */
  ghost predicate ComeFrom(reg: Registry, aggregates: seq<(TypeId, TypeId)>, tid: TypeId, es: seq<Edge>,
                           ss: seq<Source>)
    requires reg.Has(tid)
  {
    && |ss| == |es|
    && (forall i, j :: 0 <= i < j < |ss| ==> Earlier(ss[i], ss[j]))
    && (forall i :: 0 <= i < |ss| ==> From(reg, aggregates, tid, ss[i], es[i]))
    && (forall s: Source, e: Edge :: From(reg, aggregates, tid, s, e) ==> s in ss)
  }

  ghost function Sources(c: nat, ks: seq<nat>): seq<Source> {
    seq(|ks|, i requires 0 <= i < |ks| => (c, ks[i]))
  }

  /** The edges that one loop follows come from its own sources. */
  ghost predicate Part(reg: Registry, aggregates: seq<(TypeId, TypeId)>, tid: TypeId, c: nat, es: seq<Edge>,
                       ks: seq<nat>)
    requires reg.Has(tid)
  {
    && |es| == |ks| && Ascending(ks)
    && (forall i :: 0 <= i < |es| ==> From(reg, aggregates, tid, (c, ks[i]), es[i]))
    && (forall k: nat, e: Edge :: From(reg, aggregates, tid, (c, k), e) ==> k in ks)
  }

  lemma IsPart(reg: Registry, aggregates: seq<(TypeId, TypeId)>, tid: TypeId, c: nat, es: seq<Edge>, ks: seq<nat>,
               n: nat, from: (nat, Edge) -> bool)
    requires reg.Has(tid) && Places(es, ks, n, from)
    requires forall k: nat, e: Edge :: from(k, e) <==> From(reg, aggregates, tid, (c, k), e)
    requires forall k: nat, e: Edge :: from(k, e) ==> k < n
    ensures Part(reg, aggregates, tid, c, es, ks)
  {
    forall k: nat, e: Edge | From(reg, aggregates, tid, (c, k), e) ensures k in ks {
      assert from(k, e);
    }
  }

  lemma SourceIn(c: nat, ks: seq<nat>, k: nat)
    requires k in ks
    ensures (c, k) in Sources(c, ks)
  {
    var i :| 0 <= i < |ks| && ks[i] == k;
    assert Sources(c, ks)[i] == (c, k);
  }

  lemma NothingElse(reg: Registry, aggregates: seq<(TypeId, TypeId)>, tid: TypeId, a: seq<Edge>, b: seq<Edge>,
                    c: seq<Edge>, ks: seq<nat>, ls: seq<nat>, ms: seq<nat>, s: Source, e: Edge)
    requires reg.Has(tid) && Part(reg, aggregates, tid, 0, a, ks) && Part(reg, aggregates, tid, 1, b, ls)
    requires Part(reg, aggregates, tid, 2, c, ms) && From(reg, aggregates, tid, s, e)
    ensures s in Sources(0, ks) + (Sources(1, ls) + Sources(2, ms))
  {
    var k := s.1;
    if s.0 == 0 {
      assert From(reg, aggregates, tid, (0, k), e);
      SourceIn(0, ks, k);
    } else if s.0 == 1 {
      assert From(reg, aggregates, tid, (1, k), e);
      SourceIn(1, ls, k);
    } else {
      assert From(reg, aggregates, tid, (2, k), e);
      SourceIn(2, ms, k);
    }
  }

  lemma InTurn(ks: seq<nat>, ls: seq<nat>, ms: seq<nat>, ss: seq<Source>)
    requires Ascending(ks) && Ascending(ls) && Ascending(ms)
    requires ss == Sources(0, ks) + (Sources(1, ls) + Sources(2, ms))
    ensures forall i, j :: 0 <= i < j < |ss| ==> Earlier(ss[i], ss[j])
  {
  }

  lemma Together(reg: Registry, aggregates: seq<(TypeId, TypeId)>, tid: TypeId, a: seq<Edge>, b: seq<Edge>,
                 c: seq<Edge>, ks: seq<nat>, ls: seq<nat>, ms: seq<nat>)
    requires reg.Has(tid) && Part(reg, aggregates, tid, 0, a, ks) && Part(reg, aggregates, tid, 1, b, ls)
    requires Part(reg, aggregates, tid, 2, c, ms)
    ensures ComeFrom(reg, aggregates, tid, a + (b + c), Sources(0, ks) + (Sources(1, ls) + Sources(2, ms)))
  {
    var es, ss := a + (b + c), Sources(0, ks) + (Sources(1, ls) + Sources(2, ms));
    InTurn(ks, ls, ms, ss);
    forall s: Source, e: Edge | From(reg, aggregates, tid, s, e) ensures s in ss {
      NothingElse(reg, aggregates, tid, a, b, c, ks, ls, ms, s, e);
    }
    AllFrom(reg, aggregates, tid, a, b, c, ks, ls, ms);
  }

  lemma AllFrom(reg: Registry, aggregates: seq<(TypeId, TypeId)>, tid: TypeId, a: seq<Edge>, b: seq<Edge>,
                c: seq<Edge>, ks: seq<nat>, ls: seq<nat>, ms: seq<nat>)
    requires reg.Has(tid) && Part(reg, aggregates, tid, 0, a, ks) && Part(reg, aggregates, tid, 1, b, ls)
    requires Part(reg, aggregates, tid, 2, c, ms)
    ensures var es, ss := a + (b + c), Sources(0, ks) + (Sources(1, ls) + Sources(2, ms));
            |es| == |ss| && forall i :: 0 <= i < |ss| ==> From(reg, aggregates, tid, ss[i], es[i])
  {
    var es, ss := a + (b + c), Sources(0, ks) + (Sources(1, ls) + Sources(2, ms));
    forall i | 0 <= i < |ss| ensures From(reg, aggregates, tid, ss[i], es[i]) {
      if i < |a| {
        assert es[i] == a[i] && ss[i] == (0, ks[i]);
      } else if i < |a| + |b| {
        assert es[i] == b[i-|a|] && ss[i] == (1, ls[i-|a|]);
      } else {
        assert es[i] == c[i-|a|-|b|] && ss[i] == (2, ms[i-|a|-|b|]);
      }
    }
  }

  /** The edges of a type, and their order, in terms of the registry and the recorded aggregations. */
  lemma EdgesComeFrom(reg: Registry, aggregates: seq<(TypeId, TypeId)>, tid: TypeId)
    requires reg.Has(tid) && ValidAggregates(reg, aggregates)
    ensures exists ss :: ComeFrom(reg, aggregates, tid, EdgesOf(reg, aggregates, tid), ss)
  {
    var attributes := reg.types[tid].attributes;
    var ks := AttributePlaces(reg, attributes, |attributes|);
    var ls := ChildPlaces(reg, tid, |reg.types|);
    var ms := AggregatePlaces(reg, tid, aggregates, |aggregates|);
    assert attributes[..|attributes|] == attributes && aggregates[..|aggregates|] == aggregates;
    IsPart(reg, aggregates, tid, 0, AttributeEdges(reg, attributes), ks, |attributes|, ByAttribute(reg, attributes));
    IsPart(reg, aggregates, tid, 1, ChildEdges(reg, tid, |reg.types|), ls, |reg.types|, ByChild(reg, tid));
    IsPart(reg, aggregates, tid, 2, AggregateEdges(reg, tid, aggregates), ms, |aggregates|,
           ByAggregate(reg, aggregates, tid));
    Together(reg, aggregates, tid, AttributeEdges(reg, attributes), ChildEdges(reg, tid, |reg.types|),
             AggregateEdges(reg, tid, aggregates), ks, ls, ms);
    assert ComeFrom(reg, aggregates, tid, EdgesOf(reg, aggregates, tid),
                    Sources(0, ks) + (Sources(1, ls) + Sources(2, ms)));
  }

  lemma SourceDetermines(reg: Registry, aggregates: seq<(TypeId, TypeId)>, tid: TypeId, s: Source, e: Edge, f: Edge)
    requires reg.Has(tid) && From(reg, aggregates, tid, s, e) && From(reg, aggregates, tid, s, f)
    ensures e == f
  {
  }

  lemma EdgeHasSource(reg: Registry, aggregates: seq<(TypeId, TypeId)>, tid: TypeId, e: Edge)
    requires reg.Has(tid) && ValidAggregates(reg, aggregates)
    ensures e in EdgesOf(reg, aggregates, tid) <==> exists s :: From(reg, aggregates, tid, s, e)
  {
    EdgesComeFrom(reg, aggregates, tid);
    var es := EdgesOf(reg, aggregates, tid);
    var ss :| ComeFrom(reg, aggregates, tid, es, ss);
    if e in es {
      var i :| 0 <= i < |es| && es[i] == e;
      assert From(reg, aggregates, tid, ss[i], e);
    }
    if s :| From(reg, aggregates, tid, s, e) {
      var i :| 0 <= i < |ss| && ss[i] == s;
      SourceDetermines(reg, aggregates, tid, s, e, es[i]);
    }
  }

  /** From a type, an edge leads to u under the name n just if a pointer attribute n, not one to Object, points to u;
      or a container attribute holds items of type u, and n is its name with an index; or u is a child of the type or
      recorded as aggregated with it, and n is the name of u behind a dollar sign. */
  lemma EdgeIff(reg: Registry, aggregates: seq<(TypeId, TypeId)>, tid: TypeId, n: string, u: TypeId)
    requires reg.Has(tid) && ValidAggregates(reg, aggregates)
    ensures Edge(n, u) in EdgesOf(reg, aggregates, tid) <==>
              || (PointerTo(n, u) in reg.types[tid].attributes && u != reg.objectType)
              || (exists m :: VectorOf(m, u) in reg.types[tid].attributes && n == m + "/[i]")
              || (reg.Has(u) && n == "$" + reg.types[u].name
                  && ((u, tid) in reg.childOf || (tid, u) in aggregates || (u, tid) in aggregates))
  {
    var e, attributes := Edge(n, u), reg.types[tid].attributes;
    EdgeHasSource(reg, aggregates, tid, e);
    if k :| 0 <= k < |attributes| && attributes[k] == PointerTo(n, u) && u != reg.objectType {
      assert From(reg, aggregates, tid, (0, k), e);
    }
    if m :| VectorOf(m, u) in attributes && n == m + "/[i]" {
      var k :| 0 <= k < |attributes| && attributes[k] == VectorOf(m, u);
      assert From(reg, aggregates, tid, (0, k), e);
    }
    if reg.Has(u) && n == "$" + reg.types[u].name {
      if (u, tid) in reg.childOf {
        assert From(reg, aggregates, tid, (1, u), e);
      } else if (tid, u) in aggregates || (u, tid) in aggregates {
        var k :| 0 <= k < |aggregates| && (aggregates[k] == (tid, u) || aggregates[k] == (u, tid));
        assert From(reg, aggregates, tid, (2, k), e);
      }
    }
  }

  // ---------- the records one step away

  lemma WalkRecorded(g: Graph, tid: TypeId, path: seq<string>, processed: seq<TypeId>, w: seq<nat>)
    requires ValidGraph(g) && tid < |g| && NonRepeating(g, tid, processed, w)
    ensures RecordOf(g, tid, path, w) in Gathered(g, tid, path, processed)
  {
    var ws, rs := Walks(g, tid, processed), Gathered(g, tid, path, processed);
    OneRecordPerWalk(g, tid, path, processed);
    assert w in ws;
    var k :| 0 <= k < |ws| && ws[k] == w;
    assert rs[k] == RecordOf(g, tid, path, w);
  }

  lemma OneStep(g: Graph, tid: TypeId, path: seq<string>, processed: seq<TypeId>, i: nat)
    requires tid < |g| && tid !in processed && i < |g[tid]| && g[tid][i].target < |g|
    requires g[tid][i].target != tid && g[tid][i].target !in processed
    ensures NonRepeating(g, tid, processed, [i])
    ensures RecordOf(g, tid, path, [i]) == Record(g[tid][i].target, Joined(path + [g[tid][i].name]))
  {
    WalkBegins(g, tid, [i], i, []);
    assert Visited(g, tid, [i]) == [tid, g[tid][i].target];
  }

  /** Whatever the names are: every edge to a type not being processed leads to a record. */
  lemma EdgeRecorded(g: Graph, tid: TypeId, path: seq<string>, processed: seq<TypeId>, e: Edge)
    requires ValidGraph(g) && tid < |g| && tid !in processed
    requires e in g[tid] && e.target != tid && e.target !in processed
    ensures Record(e.target, Joined(path + [e.name])) in Gathered(g, tid, path, processed)
  {
    var i :| 0 <= i < |g[tid]| && g[tid][i] == e;
    OneStep(g, tid, path, processed, i);
    WalkRecorded(g, tid, path, processed, [i]);
  }

  lemma OneName(g: Graph, tid: TypeId, w: seq<nat>, n: string)
    requires ValidWalk(g, tid, w) && Names(g, tid, w) == [n]
    ensures |w| == 1 && g[tid][w[0]].name == n && Visited(g, tid, w) == [tid, g[tid][w[0]].target]
  {
    assert Names(g, g[tid][w[0]].target, w[1..]) == Names(g, tid, w)[1..] == [];
    assert w[1..] == [];
    assert g[tid][w[0]].name == Names(g, tid, w)[0];
  }

  /** A record under a path with one more element comes from an edge with that name. */
  lemma RecordHasEdge(g: Graph, tid: TypeId, path: seq<string>, processed: seq<TypeId>, n: string, u: TypeId)
    requires ValidGraph(g) && Readable(g) && tid < |g| && Element(n)
    requires Record(u, Joined(path + [n])) in Gathered(g, tid, path, processed)
    ensures Edge(n, u) in g[tid] && tid !in processed && u != tid && u !in processed
  {
    var rs, ws := Gathered(g, tid, path, processed), Walks(g, tid, processed);
    OneRecordPerWalk(g, tid, path, processed);
    var k :| 0 <= k < |rs| && rs[k] == Record(u, Joined(path + [n]));
    var w := ws[k];
    assert w in ws;
    JoinedConcat(path, Names(g, tid, w));
    JoinedConcat(path, [n]);
    Cancel(Joined(path), Joined(Names(g, tid, w)), Joined([n]));
    NamesReadable(g, tid, w);
    JoinedInjective(Names(g, tid, w), [n]);
    OneName(g, tid, w, n);
    var v := Visited(g, tid, w);
    assert v[0] != v[1] && v[0] in v && v[1] in v;
    assert g[tid][w[0]] == Edge(n, u);
  }

  /** In a well-named registry, Gather records u one step from the type it is called with, under the path element n,
      exactly if the registry leads on from that type to u under that name. */
  lemma RecordedNextIff(reg: Registry, aggregates: seq<(TypeId, TypeId)>, tid: TypeId, path: seq<string>, n: string,
                        u: TypeId)
    requires reg.Valid() && ValidAggregates(reg, aggregates) && WellNamed(reg) && reg.Has(tid) && Element(n)
    ensures ValidGraph(TypeGraph(reg, aggregates))
    ensures Record(u, Joined(path + [n])) in Gathered(TypeGraph(reg, aggregates), tid, path, [])
       <==> Edge(n, u) in EdgesOf(reg, aggregates, tid) && u != tid
  {
    var g := TypeGraph(reg, aggregates);
    TypeGraphValid(reg, aggregates);
    TypeGraphNamed(reg, aggregates);
    if Record(u, Joined(path + [n])) in Gathered(g, tid, path, []) {
      RecordHasEdge(g, tid, path, [], n, u);
    }
    if Edge(n, u) in EdgesOf(reg, aggregates, tid) && u != tid {
      EdgeRecorded(g, tid, path, [], Edge(n, u));
    }
  }

  lemma NotUnderName(reg: Registry, aggregates: seq<(TypeId, TypeId)>, tid: TypeId, m: string, u: TypeId)
    requires reg.Has(tid) && ValidAggregates(reg, aggregates) && WellNamed(reg)
    requires VectorOf(m, u) in reg.types[tid].attributes
    ensures Edge(m, u) !in EdgesOf(reg, aggregates, tid) && Element(m + "/[i]") && Simple(m)
  {
    var attributes := reg.types[tid].attributes;
    var k :| 0 <= k < |attributes| && attributes[k] == VectorOf(m, u);
    assert NameOf(attributes[k]) == m;
    EdgeIff(reg, aggregates, tid, m, u);
    assert forall j :: 0 <= j < |attributes| && NameOf(attributes[j]) == m ==> j == k;
    var e := m + "/[i]";
    assert e[|e|-4..] == "/[i]" && e[..|e|-4] == m;
  }

  /** The items of a container are recorded under its name and an index, and not under its name alone. */
  lemma ContainerRecorded(reg: Registry, aggregates: seq<(TypeId, TypeId)>, tid: TypeId, path: seq<string>, m: string,
                          u: TypeId)
    requires reg.Valid() && ValidAggregates(reg, aggregates) && WellNamed(reg) && reg.Has(tid)
    requires VectorOf(m, u) in reg.types[tid].attributes && u != tid
    ensures ValidGraph(TypeGraph(reg, aggregates))
    ensures Record(u, Joined(path + [m + "/[i]"])) in Gathered(TypeGraph(reg, aggregates), tid, path, [])
    ensures Record(u, Joined(path + [m])) !in Gathered(TypeGraph(reg, aggregates), tid, path, [])
  {
    NotUnderName(reg, aggregates, tid, m, u);
    EdgeIff(reg, aggregates, tid, m + "/[i]", u);
    RecordedNextIff(reg, aggregates, tid, path, m + "/[i]", u);
    RecordedNextIff(reg, aggregates, tid, path, m, u);
  }

  // ---------- the order of the records

  /** v comes before w: it goes on as w or leaves it by an earlier edge. */
  ghost predicate WalkBefore(v: seq<nat>, w: seq<nat>) {
    exists k :: BranchesAt(v, w, k)
  }

  ghost predicate BranchesAt(v: seq<nat>, w: seq<nat>, k: int) {
    0 <= k <= |v| && k < |w| && v[..k] == w[..k] && (k == |v| || v[k] < w[k])
  }

  ghost predicate WalksInOrder(ws: seq<seq<nat>>) {
    forall i, j :: 0 <= i < j < |ws| ==> WalkBefore(ws[i], ws[j])
  }

  lemma BeforeBehind(i: nat, v: seq<nat>, w: seq<nat>)
    requires WalkBefore(v, w)
    ensures WalkBefore([i] + v, [i] + w)
  {
    var k :| BranchesAt(v, w, k);
    assert ([i] + v)[..k+1] == [i] + v[..k] && ([i] + w)[..k+1] == [i] + w[..k];
    assert BranchesAt([i] + v, [i] + w, k + 1);
  }

  lemma PrefixedInOrder(i: nat, ws: seq<seq<nat>>)
    requires WalksInOrder(ws)
    ensures WalksInOrder(Prefixed(i, ws))
  {
    forall j, k | 0 <= j < k < |ws| ensures WalkBefore([i] + ws[j], [i] + ws[k]) {
      BeforeBehind(i, ws[j], ws[k]);
    }
  }

  lemma JoinInOrder(a: seq<seq<nat>>, b: seq<seq<nat>>)
    requires WalksInOrder(a) && WalksInOrder(b)
    requires forall v, w :: v in a && w in b ==> WalkBefore(v, w)
    ensures WalksInOrder(a + b)
  {
    forall i, j | 0 <= i < j < |a + b| ensures WalkBefore((a + b)[i], (a + b)[j]) {
      if i < |a| <= j {
        assert a[i] in a && b[j-|a|] in b;
      }
    }
  }

  ghost predicate BeginWith(ws: seq<seq<nat>>, i: int) {
    forall w :: w in ws ==> w != [] && w[0] == i
  }

  /** Parts whose walks begin with edges of ascending numbers. */
  lemma {:induction false} FlattenInOrder(parts: seq<seq<seq<nat>>>)
    requires forall i :: 0 <= i < |parts| ==> WalksInOrder(parts[i]) && BeginWith(parts[i], i)
    ensures WalksInOrder(Flatten(parts))
  {
    if parts != [] {
      var n := |parts| - 1;
      var front := parts[..n];
      FlattenInOrder(front);
      forall v, w | v in Flatten(front) && w in parts[n] ensures WalkBefore(v, w) {
        FlattenMember(front, v);
        assert BranchesAt(v, w, 0);
      }
      JoinInOrder(Flatten(front), parts[n]);
    }
  }

  /** DoGather makes its walks in dictionary order of the numbers of their edges: a type's record comes before those
      of the types behind it, and those along an edge come before those along the next. */
  lemma {:induction false} WalksOrdered(g: Graph, tid: TypeId, processed: seq<TypeId>)
    requires ValidGraph(g) && tid < |g|
    ensures WalksInOrder(Walks(g, tid, processed))
    decreases Room(|g|, processed)
  {
    if tid !in processed {
      RoomShrinks(|g|, processed, tid);
      var es, more := g[tid], processed + [tid];
      var parts := seq(|es|, i requires 0 <= i < |es| => Prefixed(i, Walks(g, es[i].target, more)));
      forall i | 0 <= i < |parts|
        ensures WalksInOrder(parts[i]) && BeginWith(parts[i], i)
      {
        WalksOrdered(g, es[i].target, more);
        PrefixedInOrder(i, Walks(g, es[i].target, more));
      }
      FlattenInOrder(parts);
      forall w | w in Flatten(parts) ensures WalkBefore([], w) {
        FlattenMember(parts, w);
        assert BranchesAt([], w, 0);
      }
      JoinInOrder([[]], Flatten(parts));
      assert Walks(g, tid, processed) == [[]] + Flatten(parts);
    }
  }
}
