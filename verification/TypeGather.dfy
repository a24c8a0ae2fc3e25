/**
 utils/print-introspected-doxygen.cc: `StaticInformation::DoGather`, the backtracking walk through the
 (possibly cyclic) graph of registered types that records every configuration path.
 */
module TypeGather {
  import opened Sequences

  /** Registered types are numbered; a TypeId is such a number. */
  type TypeId = nat

  datatype Attribute =
    | PointerTo(name: string, pointee: TypeId)
    | VectorOf(name: string, item: TypeId)
    | Plain(name: string)

  datatype TypeInfo = TypeInfo(name: string, attributes: seq<Attribute>)

  /** objectType is the TypeId of Object; (a, b) in childOf says that a is a child of b. */
  datatype Registry = Registry(types: seq<TypeInfo>, childOf: set<(TypeId, TypeId)>, objectType: TypeId) {
    predicate Has(tid: TypeId) {
      tid < |types|
    }

    ghost predicate Valid() {
      forall t, i {:trigger types[t].attributes[i]} :: 0 <= t < |types| && 0 <= i < |types[t].attributes| ==>
        match types[t].attributes[i]
        case PointerTo(_, p) => Has(p)
        case VectorOf(_, p) => Has(p)
        case Plain(_) => true
    }
  }

  /** One way on from a type: the path element it adds, and the type it leads to. */
  datatype Edge = Edge(name: string, target: TypeId)

  datatype Record = Record(tid: TypeId, path: string)

  // ---------- the edges of the type graph

  function AttributeEdge(reg: Registry, a: Attribute): seq<Edge> {
    match a
    case PointerTo(name, p) => if p == reg.objectType then [] else [Edge(name, p)]
    case VectorOf(name, p) => [Edge(name + "/[i]", p)]
    case Plain(_) => []
  }

  ghost function AttributeEdges(reg: Registry, attributes: seq<Attribute>): seq<Edge> {
    if attributes == [] then []
    else AttributeEdges(reg, attributes[..|attributes|-1]) + AttributeEdge(reg, attributes[|attributes|-1])
  }

  function ChildEdge(reg: Registry, tid: TypeId, child: TypeId): seq<Edge>
    requires reg.Has(child)
  {
    if (child, tid) in reg.childOf then [Edge("$" + reg.types[child].name, child)] else []
  }

  /** The edges to those among the first n registered types that are children of tid. */
  ghost function ChildEdges(reg: Registry, tid: TypeId, n: nat): seq<Edge>
    requires n <= |reg.types|
  {
    if n == 0 then [] else ChildEdges(reg, tid, n - 1) + ChildEdge(reg, tid, n - 1)
  }

  ghost predicate ValidAggregates(reg: Registry, aggregates: seq<(TypeId, TypeId)>) {
    forall i :: 0 <= i < |aggregates| ==> reg.Has(aggregates[i].0) && reg.Has(aggregates[i].1)
  }

  function AggregateEdge(reg: Registry, tid: TypeId, pair: (TypeId, TypeId)): seq<Edge>
    requires reg.Has(pair.0) && reg.Has(pair.1)
  {
    if pair.1 == tid then [Edge("$" + reg.types[pair.0].name, pair.0)]
    else if pair.0 == tid then [Edge("$" + reg.types[pair.1].name, pair.1)]
    else []
  }

  ghost function AggregateEdges(reg: Registry, tid: TypeId, aggregates: seq<(TypeId, TypeId)>): seq<Edge>
    requires ValidAggregates(reg, aggregates)
  {
    if aggregates == [] then []
    else AggregateEdges(reg, tid, aggregates[..|aggregates|-1]) + AggregateEdge(reg, tid, aggregates[|aggregates|-1])
  }

  /** For every type its edges, in the order in which they are followed. */
  type Graph = seq<seq<Edge>>

  ghost predicate ValidGraph(g: Graph) {
    forall t :: 0 <= t < |g| ==> Targets(g, g[t])
  }

  ghost predicate Targets(g: Graph, es: seq<Edge>) {
    forall i :: 0 <= i < |es| ==> es[i].target < |g|
  }

  ghost predicate TargetsIn(reg: Registry, es: seq<Edge>) {
    forall i :: 0 <= i < |es| ==> reg.Has(es[i].target)
  }

  lemma {:induction false} AttributeTargets(reg: Registry, tid: TypeId, n: nat)
    requires reg.Valid() && reg.Has(tid) && n <= |reg.types[tid].attributes|
    ensures TargetsIn(reg, AttributeEdges(reg, reg.types[tid].attributes[..n]))
  {
    if n > 0 {
      AttributeTargets(reg, tid, n - 1);
      assert reg.types[tid].attributes[..n][..n-1] == reg.types[tid].attributes[..n-1];
    }
  }

  lemma {:induction false} ChildTargets(reg: Registry, tid: TypeId, n: nat)
    requires n <= |reg.types|
    ensures TargetsIn(reg, ChildEdges(reg, tid, n))
  {
    if n > 0 {
      ChildTargets(reg, tid, n - 1);
    }
  }

  lemma {:induction false} AggregateTargets(reg: Registry, tid: TypeId, aggregates: seq<(TypeId, TypeId)>)
    requires ValidAggregates(reg, aggregates)
    ensures TargetsIn(reg, AggregateEdges(reg, tid, aggregates))
  {
    if aggregates != [] {
      AggregateTargets(reg, tid, aggregates[..|aggregates|-1]);
    }
  }

  lemma AttributeEdgesMore(reg: Registry, attributes: seq<Attribute>, i: nat)
    requires i < |attributes|
    ensures AttributeEdges(reg, attributes[..i+1])
         == AttributeEdges(reg, attributes[..i]) + AttributeEdge(reg, attributes[i])
  {
    assert attributes[..i+1][..i] == attributes[..i];
  }

  lemma AggregateEdgesMore(reg: Registry, tid: TypeId, aggregates: seq<(TypeId, TypeId)>, k: nat)
    requires k < |aggregates| && ValidAggregates(reg, aggregates)
    ensures AggregateEdges(reg, tid, aggregates[..k+1])
         == AggregateEdges(reg, tid, aggregates[..k]) + AggregateEdge(reg, tid, aggregates[k])
  {
    assert aggregates[..k+1][..k] == aggregates[..k];
  }

  ghost function EdgesOf(reg: Registry, aggregates: seq<(TypeId, TypeId)>, tid: TypeId): seq<Edge>
    requires reg.Has(tid) && ValidAggregates(reg, aggregates)
  {
    AttributeEdges(reg, reg.types[tid].attributes)
    + (ChildEdges(reg, tid, |reg.types|) + AggregateEdges(reg, tid, aggregates))
  }

  ghost function TypeGraph(reg: Registry, aggregates: seq<(TypeId, TypeId)>): Graph
    requires ValidAggregates(reg, aggregates)
  {
    seq(|reg.types|, t requires 0 <= t < |reg.types| => EdgesOf(reg, aggregates, t))
  }

  lemma TypeGraphValid(reg: Registry, aggregates: seq<(TypeId, TypeId)>)
    requires reg.Valid() && ValidAggregates(reg, aggregates)
    ensures ValidGraph(TypeGraph(reg, aggregates))
  {
    forall t | 0 <= t < |reg.types| ensures TargetsIn(reg, EdgesOf(reg, aggregates, t)) {
      var attributes := reg.types[t].attributes;
      AttributeTargets(reg, t, |attributes|);
      assert attributes[..|attributes|] == attributes;
      ChildTargets(reg, t, |reg.types|);
      AggregateTargets(reg, t, aggregates);
    }
    assert forall t :: 0 <= t < |reg.types| ==> TypeGraph(reg, aggregates)[t] == EdgesOf(reg, aggregates, t);
  }

  // ---------- what one call records

  /** GetCurrentPath */
  ghost function Joined(path: seq<string>): string {
    if path == [] then [] else Joined(path[..|path|-1]) + ("/" + path[|path|-1])
  }

  /** How many of the first n types are not being processed. */
  ghost function Room(n: nat, processed: seq<TypeId>): nat {
    if n == 0 then 0 else Room(n - 1, processed) + if n - 1 in processed then 0 else 1
  }

  lemma {:induction false} RoomShrinks(n: nat, processed: seq<TypeId>, tid: TypeId)
    requires tid !in processed
    ensures Room(n, processed + [tid]) == Room(n, processed) - if tid < n then 1 else 0
  {
    if n > 0 {
      RoomShrinks(n - 1, processed, tid);
    }
  }

  ghost function Flatten<T>(parts: seq<seq<T>>): seq<T> {
    if parts == [] then [] else Flatten(parts[..|parts|-1]) + parts[|parts|-1]
  }

  lemma FlattenMore<T>(parts: seq<seq<T>>, x: seq<T>)
    ensures Flatten(parts + [x]) == Flatten(parts) + x
  {
    assert (parts + [x])[..|parts|] == parts;
  }

  lemma {:induction false} FlattenConcat<T>(a: seq<seq<T>>, b: seq<seq<T>>)
    ensures Flatten(a + b) == Flatten(a) + Flatten(b)
  {
    if b == [] {
      assert a + b == a;
    } else {
      var front, last := b[..|b|-1], b[|b|-1];
      FlattenConcat(a, front);
      FlattenMore(a + front, last);
      assert b == front + [last];
      Associative(a, front, [last]);
      Associative(Flatten(a), Flatten(front), last);
    }
  }

  /** The records of DoGather(tid), given the current path and the types being processed. */
  ghost function Gathered(g: Graph, tid: TypeId, path: seq<string>, processed: seq<TypeId>): seq<Record>
    requires ValidGraph(g) && tid < |g|
    decreases Room(|g|, processed), 0
  {
    if tid in processed then []
    else
      RoomShrinks(|g|, processed, tid);
      [Record(tid, Joined(path))] + GatheredAlong(g, g[tid], path, processed + [tid])
  }

  /** The records made by following some edges in turn. */
  ghost function GatheredAlong(g: Graph, es: seq<Edge>, path: seq<string>, processed: seq<TypeId>): seq<Record>
    requires ValidGraph(g) && Targets(g, es)
    decreases Room(|g|, processed), 1
  {
    Flatten(seq(|es|, i requires 0 <= i < |es| => Gathered(g, es[i].target, path + [es[i].name], processed)))
  }

  ghost function Parts(g: Graph, es: seq<Edge>, path: seq<string>, processed: seq<TypeId>): seq<seq<Record>>
    requires ValidGraph(g) && Targets(g, es)
  {
    seq(|es|, i requires 0 <= i < |es| => Gathered(g, es[i].target, path + [es[i].name], processed))
  }

  lemma GatheredAlongMore(g: Graph, es: seq<Edge>, e: Edge, path: seq<string>, processed: seq<TypeId>)
    requires ValidGraph(g) && Targets(g, es) && e.target < |g|
    ensures Targets(g, es + [e])
    ensures GatheredAlong(g, es + [e], path, processed)
         == GatheredAlong(g, es, path, processed) + Gathered(g, e.target, path + [e.name], processed)
  {
    FlattenMore(Parts(g, es, path, processed), Gathered(g, e.target, path + [e.name], processed));
    assert Parts(g, es + [e], path, processed)
        == Parts(g, es, path, processed) + [Gathered(g, e.target, path + [e.name], processed)];
    assert GatheredAlong(g, es + [e], path, processed) == Flatten(Parts(g, es + [e], path, processed));
    assert GatheredAlong(g, es, path, processed) == Flatten(Parts(g, es, path, processed));
  }

  lemma GatheredAlongConcat(g: Graph, a: seq<Edge>, b: seq<Edge>, path: seq<string>, processed: seq<TypeId>)
    requires ValidGraph(g) && Targets(g, a) && Targets(g, b)
    ensures Targets(g, a + b)
    ensures GatheredAlong(g, a + b, path, processed)
         == GatheredAlong(g, a, path, processed) + GatheredAlong(g, b, path, processed)
  {
    FlattenConcat(Parts(g, a, path, processed), Parts(g, b, path, processed));
    assert Parts(g, a + b, path, processed) == Parts(g, a, path, processed) + Parts(g, b, path, processed);
    assert GatheredAlong(g, a + b, path, processed) == Flatten(Parts(g, a + b, path, processed));
  }

  // ---------- the object that does it

  class StaticInformation {
    const reg: Registry
    var output: seq<Record>
    var currentPath: seq<string>
    var alreadyProcessed: seq<TypeId>
    var aggregates: seq<(TypeId, TypeId)>

    constructor (reg: Registry)
      ensures this.reg == reg && output == [] && currentPath == [] && alreadyProcessed == [] && aggregates == []
    {
      this.reg := reg;
      output, currentPath, alreadyProcessed, aggregates := [], [], [], [];
    }

    /** The registry and the recorded aggregations make sense, and g is the graph they describe. */
    ghost predicate Describes(g: Graph)
      reads this`aggregates
    {
      && reg.Valid() && ValidAggregates(reg, aggregates)
      && ValidGraph(g) && |g| == |reg.types|
      && forall t {:trigger EdgesOf(reg, aggregates, t)} :: 0 <= t < |g| ==> g[t] == EdgesOf(reg, aggregates, t)
    }

    method GetCurrentPath() returns (path: string)
      ensures path == Joined(currentPath)
    {
      path := [];
      for i := 0 to |currentPath|
        invariant path == Joined(currentPath[..i])
      {
        assert currentPath[..i+1][..i] == currentPath[..i];
        path := path + ("/" + currentPath[i]);
      }
      assert currentPath[..|currentPath|] == currentPath;
    }

    method HasAlreadyBeenProcessed(tid: TypeId) returns (found: bool)
      ensures found <==> tid in alreadyProcessed
    {
      for i := 0 to |alreadyProcessed|
        invariant tid !in alreadyProcessed[..i]
      {
        if alreadyProcessed[i] == tid {
          return true;
        }
      }
      return false;
    }

    method RecordOutput(tid: TypeId)
      modifies this`output
      ensures output == old(output) + [Record(tid, Joined(currentPath))]
    {
      var path := GetCurrentPath();
      output := output + [Record(tid, path)];
    }

    /** The recursive walk, started by Gather. */
    method DoGather(tid: TypeId, ghost g: Graph)
      requires Describes(g) && reg.Has(tid)
      modifies this`output, this`currentPath, this`alreadyProcessed
      ensures currentPath == old(currentPath) && alreadyProcessed == old(alreadyProcessed)
      ensures output == old(output) + Gathered(g, tid, currentPath, alreadyProcessed)
      decreases Room(|g|, alreadyProcessed), 2
    {
      var found := HasAlreadyBeenProcessed(tid);
      if found {
        return;
      }
      assert g[tid] == EdgesOf(reg, aggregates, tid);
      RecordOutput(tid);
      FollowAttributes(tid, g);
      FollowChildren(tid, g);
      FollowAggregates(tid, g);
      ThreeLoops(g, AttributeEdges(reg, reg.types[tid].attributes), ChildEdges(reg, tid, |reg.types|),
                 AggregateEdges(reg, tid, aggregates), tid, currentPath, alreadyProcessed, old(output));
    }

    /** Extend the path, mark tid as being processed, gather the target, and undo both. The edges es have
        been followed before, and have produced all the output beyond start. */
    method Follow(tid: TypeId, name: string, target: TypeId, ghost g: Graph, ghost es: seq<Edge>,
                  ghost start: seq<Record>)
      requires Describes(g) && reg.Has(tid) && reg.Has(target) && tid !in alreadyProcessed && Targets(g, es)
      requires output == start + GatheredAlong(g, es, currentPath, alreadyProcessed + [tid])
      modifies this`output, this`currentPath, this`alreadyProcessed
      ensures currentPath == old(currentPath) && alreadyProcessed == old(alreadyProcessed)
      ensures Targets(g, es + [Edge(name, target)])
      ensures output == start + GatheredAlong(g, es + [Edge(name, target)], currentPath, alreadyProcessed + [tid])
      decreases Room(|g|, alreadyProcessed), 0
    {
      RoomShrinks(|g|, alreadyProcessed, tid);
      GatheredAlongMore(g, es, Edge(name, target), currentPath, alreadyProcessed + [tid]);
      ghost var made := GatheredAlong(g, es, currentPath, alreadyProcessed + [tid]);
      ghost var more := Gathered(g, target, currentPath + [name], alreadyProcessed + [tid]);
      currentPath := currentPath + [name];
      alreadyProcessed := alreadyProcessed + [tid];
      DoGather(target, g);
      Associative(start, made, more);
      alreadyProcessed := alreadyProcessed[..|alreadyProcessed|-1];
      currentPath := currentPath[..|currentPath|-1];
    }

    /** The loop over the attributes of tid. */
    method FollowAttributes(tid: TypeId, ghost g: Graph)
      requires Describes(g) && reg.Has(tid) && tid !in alreadyProcessed
      modifies this`output, this`currentPath, this`alreadyProcessed
      ensures currentPath == old(currentPath) && alreadyProcessed == old(alreadyProcessed)
      ensures var es := AttributeEdges(reg, reg.types[tid].attributes);
              Targets(g, es) && output == old(output) + GatheredAlong(g, es, currentPath, alreadyProcessed + [tid])
      decreases Room(|g|, alreadyProcessed), 1
    {
      var attributes := reg.types[tid].attributes;
      ghost var es: seq<Edge>, start := [], output;
      assert start + [] == start;
      for i := 0 to |attributes|
        invariant currentPath == old(currentPath) && alreadyProcessed == old(alreadyProcessed)
        invariant es == AttributeEdges(reg, attributes[..i]) && Targets(g, es)
        invariant output == start + GatheredAlong(g, es, currentPath, alreadyProcessed + [tid])
      {
        AttributeEdgesMore(reg, attributes, i);
        assert es + [] == es;
        match attributes[i] {
          case PointerTo(name, pointee) =>
            if pointee != reg.objectType {
              Follow(tid, name, pointee, g, es, start);
            }
          case VectorOf(name, item) =>
            Follow(tid, name + "/[i]", item, g, es, start);
          case Plain(_) =>
        }
        es := es + AttributeEdge(reg, attributes[i]);
      }
      assert attributes[..|attributes|] == attributes;
    }

    /** The loop over all registered types, for the children of tid. */
    method FollowChildren(tid: TypeId, ghost g: Graph)
      requires Describes(g) && reg.Has(tid) && tid !in alreadyProcessed
      modifies this`output, this`currentPath, this`alreadyProcessed
      ensures currentPath == old(currentPath) && alreadyProcessed == old(alreadyProcessed)
      ensures var es := ChildEdges(reg, tid, |reg.types|);
              Targets(g, es) && output == old(output) + GatheredAlong(g, es, currentPath, alreadyProcessed + [tid])
      decreases Room(|g|, alreadyProcessed), 1
    {
      ghost var es: seq<Edge>, start := [], output;
      assert start + [] == start;
      for j := 0 to |reg.types|
        invariant currentPath == old(currentPath) && alreadyProcessed == old(alreadyProcessed)
        invariant es == ChildEdges(reg, tid, j) && Targets(g, es)
        invariant output == start + GatheredAlong(g, es, currentPath, alreadyProcessed + [tid])
      {
        assert es + [] == es;
        if (j, tid) in reg.childOf {
          var childName := "$" + reg.types[j].name;
          Follow(tid, childName, j, g, es, start);
        }
        es := es + ChildEdge(reg, tid, j);
      }
    }

    /** The loop over the aggregations tid takes part in. */
    method FollowAggregates(tid: TypeId, ghost g: Graph)
      requires Describes(g) && reg.Has(tid) && tid !in alreadyProcessed
      modifies this`output, this`currentPath, this`alreadyProcessed
      ensures currentPath == old(currentPath) && alreadyProcessed == old(alreadyProcessed)
      ensures var es := AggregateEdges(reg, tid, aggregates);
              Targets(g, es) && output == old(output) + GatheredAlong(g, es, currentPath, alreadyProcessed + [tid])
      decreases Room(|g|, alreadyProcessed), 1
    {
      ghost var es: seq<Edge>, start := [], output;
      assert start + [] == start;
      for k := 0 to |aggregates|
        invariant currentPath == old(currentPath) && alreadyProcessed == old(alreadyProcessed)
        invariant es == AggregateEdges(reg, tid, aggregates[..k]) && Targets(g, es)
        invariant output == start + GatheredAlong(g, es, currentPath, alreadyProcessed + [tid])
      {
        AggregateEdgesMore(reg, tid, aggregates, k);
        var item := aggregates[k];
        assert es + [] == es;
        if item.0 == tid || item.1 == tid {
          var other := item.0;
          if item.0 == tid {
            other := item.1;
          }
          if item.1 == tid {
            other := item.0;
          }
          var name := "$" + reg.types[other].name;
          Follow(tid, name, other, g, es, start);
        }
        es := es + AggregateEdge(reg, tid, item);
      }
      assert aggregates[..|aggregates|] == aggregates;
    }

    /** Gather: its call of Uniquefy works on a copy and changes nothing. */
    method Gather(tid: TypeId)
      requires reg.Valid() && ValidAggregates(reg, aggregates) && reg.Has(tid)
      modifies this`output, this`currentPath, this`alreadyProcessed
      ensures currentPath == old(currentPath) && alreadyProcessed == old(alreadyProcessed)
      ensures ValidGraph(TypeGraph(reg, aggregates))
      ensures output == old(output) + Gathered(TypeGraph(reg, aggregates), tid, currentPath, alreadyProcessed)
    {
      TypeGraphValid(reg, aggregates);
      DoGather(tid, TypeGraph(reg, aggregates));
    }
  }

  /** The three loops together follow all the edges of a type. */
  lemma ThreeLoops(g: Graph, a: seq<Edge>, b: seq<Edge>, c: seq<Edge>, tid: TypeId,
                   path: seq<string>, processed: seq<TypeId>, start: seq<Record>)
    requires ValidGraph(g) && tid < |g| && tid !in processed && g[tid] == a + (b + c)
    requires Targets(g, a) && Targets(g, b) && Targets(g, c)
    ensures start + [Record(tid, Joined(path))] + GatheredAlong(g, a, path, processed + [tid])
                  + GatheredAlong(g, b, path, processed + [tid]) + GatheredAlong(g, c, path, processed + [tid])
         == start + Gathered(g, tid, path, processed)
  {
    GatheredAlongConcat(g, b, c, path, processed + [tid]);
    GatheredAlongConcat(g, a, b + c, path, processed + [tid]);
    FourParts(start, [Record(tid, Joined(path))], GatheredAlong(g, a, path, processed + [tid]),
              GatheredAlong(g, b, path, processed + [tid]), GatheredAlong(g, c, path, processed + [tid]));
  }

  lemma Associative<T>(a: seq<T>, b: seq<T>, c: seq<T>)
    ensures (a + b) + c == a + (b + c)
  {
  }

  lemma FourParts<T>(s: seq<T>, x: seq<T>, a: seq<T>, b: seq<T>, c: seq<T>)
    ensures s + x + a + b + c == s + (x + (a + (b + c)))
  {
  }

  // ---------- one record per walk that revisits no type

  /** The type reached from tid by the walk w, given as the number of the edge taken at each step. */
  ghost predicate ValidWalk(g: Graph, tid: TypeId, w: seq<nat>)
    decreases |w|
  {
    tid < |g| && (w != [] ==> w[0] < |g[tid]| && ValidWalk(g, g[tid][w[0]].target, w[1..]))
  }

  /** The types that a walk visits, its first and its last one included. */
  ghost function Visited(g: Graph, tid: TypeId, w: seq<nat>): (v: seq<TypeId>)
    requires ValidWalk(g, tid, w)
    ensures |v| == |w| + 1
    decreases |w|
  {
    [tid] + if w == [] then [] else Visited(g, g[tid][w[0]].target, w[1..])
  }

  /** The path elements along a walk. */
  ghost function Names(g: Graph, tid: TypeId, w: seq<nat>): seq<string>
    requires ValidWalk(g, tid, w)
    decreases |w|
  {
    if w == [] then [] else [g[tid][w[0]].name] + Names(g, g[tid][w[0]].target, w[1..])
  }

  /** No type twice on the walk, and none of those being processed already. */
  ghost predicate NonRepeating(g: Graph, tid: TypeId, processed: seq<TypeId>, w: seq<nat>) {
    && ValidWalk(g, tid, w)
    && NoDup(Visited(g, tid, w))
    && forall t :: t in Visited(g, tid, w) ==> t !in processed
  }

  /** The record of a walk: the type where it ends, under the path that leads there. */
  ghost function RecordOf(g: Graph, tid: TypeId, path: seq<string>, w: seq<nat>): Record
    requires ValidWalk(g, tid, w)
  {
    Record(Visited(g, tid, w)[|w|], Joined(path + Names(g, tid, w)))
  }

  ghost function Prefixed(i: nat, ws: seq<seq<nat>>): seq<seq<nat>> {
    seq(|ws|, k requires 0 <= k < |ws| => [i] + ws[k])
  }

  /** The walks that DoGather makes from tid, in order. */
  ghost function Walks(g: Graph, tid: TypeId, processed: seq<TypeId>): seq<seq<nat>>
    requires ValidGraph(g) && tid < |g|
    decreases Room(|g|, processed), 0
  {
    if tid in processed then []
    else
      RoomShrinks(|g|, processed, tid);
      [[]] + WalksAlong(g, g[tid], processed + [tid])
  }

  ghost function WalksAlong(g: Graph, es: seq<Edge>, processed: seq<TypeId>): seq<seq<nat>>
    requires ValidGraph(g) && Targets(g, es)
    decreases Room(|g|, processed), 1
  {
    Flatten(seq(|es|, i requires 0 <= i < |es| => Prefixed(i, Walks(g, es[i].target, processed))))
  }

  lemma {:induction false} FlattenMember<T>(parts: seq<seq<T>>, x: T)
    ensures x in Flatten(parts) <==> exists i :: 0 <= i < |parts| && x in parts[i]
  {
    if parts != [] {
      FlattenMember(parts[..|parts|-1], x);
    }
  }

  lemma WalksAlongMember(g: Graph, es: seq<Edge>, processed: seq<TypeId>, w: seq<nat>)
    requires ValidGraph(g) && Targets(g, es)
    ensures w in WalksAlong(g, es, processed)
       <==> w != [] && w[0] < |es| && w[1..] in Walks(g, es[w[0]].target, processed)
  {
    var parts := seq(|es|, i requires 0 <= i < |es| => Prefixed(i, Walks(g, es[i].target, processed)));
    FlattenMember(parts, w);
    if w in WalksAlong(g, es, processed) {
      var i :| 0 <= i < |parts| && w in parts[i];
      var ws := Walks(g, es[i].target, processed);
      var k :| 0 <= k < |ws| && w == [i] + ws[k];
      assert w[1..] == ws[k];
    }
    if w != [] && w[0] < |es| && w[1..] in Walks(g, es[w[0]].target, processed) {
      var ws := Walks(g, es[w[0]].target, processed);
      var k :| 0 <= k < |ws| && ws[k] == w[1..];
      assert parts[w[0]][k] == w;
    }
  }

  /** DoGather makes exactly the walks that revisit no type. */
  lemma {:induction false} WalkMadeIff(g: Graph, tid: TypeId, processed: seq<TypeId>, w: seq<nat>)
    requires ValidGraph(g) && tid < |g|
    ensures w in Walks(g, tid, processed) <==> NonRepeating(g, tid, processed, w)
    decreases |w|
  {
    if tid in processed {
      if ValidWalk(g, tid, w) {
        assert Visited(g, tid, w)[0] == tid;
      }
    } else if w != [] {
      WalksAlongMember(g, g[tid], processed + [tid], w);
      assert w in Walks(g, tid, processed) <==> w in WalksAlong(g, g[tid], processed + [tid]);
      if w[0] < |g[tid]| {
        var next := g[tid][w[0]].target;
        WalkMadeIff(g, next, processed + [tid], w[1..]);
        NonRepeatingStep(g, tid, processed, w);
      }
    } else {
      assert [[]] + WalksAlong(g, g[tid], processed + [tid]) == Walks(g, tid, processed);
      assert Walks(g, tid, processed)[0] == w;
    }
  }

  lemma NonRepeatingStep(g: Graph, tid: TypeId, processed: seq<TypeId>, w: seq<nat>)
    requires ValidGraph(g) && tid < |g| && tid !in processed && w != [] && w[0] < |g[tid]|
    ensures NonRepeating(g, tid, processed, w)
       <==> NonRepeating(g, g[tid][w[0]].target, processed + [tid], w[1..])
  {
    var next := g[tid][w[0]].target;
    if ValidWalk(g, tid, w) {
      var v, u := Visited(g, tid, w), Visited(g, next, w[1..]);
      assert v == [tid] + u;
      assert NoDup(v) <==> tid !in u && NoDup(u) by {
        if NoDup(v) {
          forall i | 0 <= i < |u| ensures u[i] != tid { assert v[0] != v[i+1]; }
          forall i, j | 0 <= i < j < |u| ensures u[i] != u[j] { assert v[i+1] != v[j+1]; }
        }
      }
    }
  }

  lemma {:induction false} FlattenDistinct<T>(parts: seq<seq<T>>)
    requires forall i :: 0 <= i < |parts| ==> NoDup(parts[i])
    requires forall i, j, x :: 0 <= i < j < |parts| && x in parts[i] ==> x !in parts[j]
    ensures NoDup(Flatten(parts))
  {
    if parts != [] {
      var n := |parts| - 1;
      FlattenDistinct(parts[..n]);
      forall x | x in Flatten(parts[..n]) ensures x !in parts[n] {
        FlattenMember(parts[..n], x);
      }
      NoDupConcat(Flatten(parts[..n]), parts[n]);
    }
  }

  lemma PrefixedDistinct(i: nat, ws: seq<seq<nat>>)
    requires NoDup(ws)
    ensures NoDup(Prefixed(i, ws)) && [] !in Prefixed(i, ws)
    ensures forall w :: w in Prefixed(i, ws) ==> w != [] && w[0] == i
  {
    forall j, k | 0 <= j < k < |ws| ensures Prefixed(i, ws)[j] != Prefixed(i, ws)[k] {
      assert ([i] + ws[j])[1..] == ws[j] && ([i] + ws[k])[1..] == ws[k];
    }
  }

  /** No walk is made twice. */
  lemma {:induction false} WalksDistinct(g: Graph, tid: TypeId, processed: seq<TypeId>)
    requires ValidGraph(g) && tid < |g|
    ensures NoDup(Walks(g, tid, processed))
    decreases Room(|g|, processed)
  {
    if tid !in processed {
      RoomShrinks(|g|, processed, tid);
      var es, more := g[tid], processed + [tid];
      var parts := seq(|es|, i requires 0 <= i < |es| => Prefixed(i, Walks(g, es[i].target, more)));
      forall i | 0 <= i < |parts| ensures NoDup(parts[i]) && forall w :: w in parts[i] ==> w != [] && w[0] == i {
        WalksDistinct(g, es[i].target, more);
        PrefixedDistinct(i, Walks(g, es[i].target, more));
      }
      FlattenDistinct(parts);
      FlattenMember(parts, []);
      assert Walks(g, tid, processed) == [[]] + Flatten(parts);
    }
  }

  /** The k-th record is that of the k-th walk. */
  ghost predicate RecordsOf(g: Graph, tid: TypeId, path: seq<string>, ws: seq<seq<nat>>, rs: seq<Record>) {
    |rs| == |ws| && forall k :: 0 <= k < |ws| ==> ValidWalk(g, tid, ws[k]) && rs[k] == RecordOf(g, tid, path, ws[k])
  }

  lemma {:induction false} RecordsOfParts(g: Graph, tid: TypeId, path: seq<string>,
                                          ws: seq<seq<seq<nat>>>, rs: seq<seq<Record>>)
    requires |ws| == |rs| && forall i :: 0 <= i < |ws| ==> RecordsOf(g, tid, path, ws[i], rs[i])
    ensures RecordsOf(g, tid, path, Flatten(ws), Flatten(rs))
  {
    if ws != [] {
      RecordsOfParts(g, tid, path, ws[..|ws|-1], rs[..|rs|-1]);
    }
  }

  lemma RecordsOfPrefixed(g: Graph, tid: TypeId, path: seq<string>, i: nat, ws: seq<seq<nat>>, rs: seq<Record>)
    requires ValidGraph(g) && tid < |g| && i < |g[tid]|
    requires RecordsOf(g, g[tid][i].target, path + [g[tid][i].name], ws, rs)
    ensures RecordsOf(g, tid, path, Prefixed(i, ws), rs)
  {
    var e := g[tid][i];
    forall k | 0 <= k < |ws|
      ensures ValidWalk(g, tid, [i] + ws[k]) && rs[k] == RecordOf(g, tid, path, [i] + ws[k])
    {
      var w := [i] + ws[k];
      assert w[1..] == ws[k];
      assert path + Names(g, tid, w) == path + [e.name] + Names(g, e.target, ws[k]);
    }
  }

  /** DoGather appends exactly one record per walk from tid that revisits no type, in the order of the walks. */
  lemma {:induction false} OneRecordPerWalk(g: Graph, tid: TypeId, path: seq<string>, processed: seq<TypeId>)
    requires ValidGraph(g) && tid < |g|
    ensures RecordsOf(g, tid, path, Walks(g, tid, processed), Gathered(g, tid, path, processed))
    ensures NoDup(Walks(g, tid, processed))
    ensures forall w :: w in Walks(g, tid, processed) <==> NonRepeating(g, tid, processed, w)
    decreases Room(|g|, processed)
  {
    WalksDistinct(g, tid, processed);
    forall w ensures w in Walks(g, tid, processed) <==> NonRepeating(g, tid, processed, w) {
      WalkMadeIff(g, tid, processed, w);
    }
    if tid !in processed {
      RoomShrinks(|g|, processed, tid);
      var es, more := g[tid], processed + [tid];
      var ws := seq(|es|, i requires 0 <= i < |es| => Prefixed(i, Walks(g, es[i].target, more)));
      forall i | 0 <= i < |es| ensures RecordsOf(g, tid, path, ws[i], Parts(g, es, path, more)[i]) {
        OneRecordPerWalk(g, es[i].target, path + [es[i].name], more);
        RecordsOfPrefixed(g, tid, path, i, Walks(g, es[i].target, more),
                          Gathered(g, es[i].target, path + [es[i].name], more));
      }
      RecordsOfParts(g, tid, path, ws, Parts(g, es, path, more));
      EmptyWalkFirst(g, tid, path, Flatten(ws), Flatten(Parts(g, es, path, more)));
    }
  }

  lemma EmptyWalkFirst(g: Graph, tid: TypeId, path: seq<string>, ws: seq<seq<nat>>, rs: seq<Record>)
    requires ValidGraph(g) && tid < |g| && RecordsOf(g, tid, path, ws, rs)
    ensures RecordsOf(g, tid, path, [[]] + ws, [Record(tid, Joined(path))] + rs)
  {
    assert path + Names(g, tid, []) == path;
  }
}
