/**
 analysis_scripts/parse_results_v3.py: `interpolate_aoi`, which adds points to an age series at given
 times, and what that does to the area under it.
 */
module AgeInterpolation {
  import opened AgeSeries

  // ---------- the operation

  /** The points no later than t. */
  function UpTo(s: seq<Point>, t: real): seq<Point> {
    if s == [] then []
    else UpTo(s[..|s|-1], t) + if s[|s|-1].t <= t then [s[|s|-1]] else []
  }

  /** The points later than t. */
  function After(s: seq<Point>, t: real): seq<Point> {
    if s == [] then []
    else After(s[..|s|-1], t) + if s[|s|-1].t > t then [s[|s|-1]] else []
  }

  /** The value at time t of the line through p and q. */
  function Line(p: Point, q: Point, t: real): real
    requires p.t != q.t
  {
    p.age + (q.age - p.age) * (t - p.t) / (q.t - p.t)
  }

  lemma UpToAfterMembers(s: seq<Point>, t: real)
    ensures forall p :: p in UpTo(s, t) <==> p in s && p.t <= t
    ensures forall p :: p in After(s, t) <==> p in s && p.t > t
  {
    if s != [] {
      UpToAfterMembers(s[..|s|-1], t);
      assert s == s[..|s|-1] + [s[|s|-1]];
    }
  }

  predicate Covers(s: seq<Point>, t: real) {
    UpTo(s, t) != [] && After(s, t) != []
  }

  function NewPoint(s: seq<Point>, t: real): Point
    requires Covers(s, t)
  {
    var smaller, larger := UpTo(s, t), After(s, t);
    var prev, next := smaller[|smaller|-1], larger[0];
    UpToAfterMembers(s, t);
    assert prev in smaller && next in larger;
    Point(t, Line(prev, next, t))
  }

  ghost function NewPoints(times: seq<real>, s: seq<Point>): seq<Point> {
    if times == [] then []
    else
      var n := |times| - 1;
      NewPoints(times[..n], s) + if Covers(s, times[n]) then [NewPoint(s, times[n])] else []
  }

  /** Insertion in front of the first point that is not earlier. */
  function Insert(p: Point, s: seq<Point>): seq<Point> {
    if s == [] || p.t <= s[0].t then [p] + s else [s[0]] + Insert(p, s[1..])
  }

  /** The points in time order; points of equal time keep their order. */
  function StableSort(s: seq<Point>): seq<Point> {
    if s == [] then [] else Insert(s[0], StableSort(s[1..]))
  }

  /** What interpolate_aoi returns. */
  ghost function Interpolated(times: seq<real>, s: seq<Point>): seq<Point> {
    if NewPoints(times, s) == [] then s else StableSort(NewPoints(times, s) + s)
  }

  /** The points of one time, in order. */
  ghost function AtTime(s: seq<Point>, t: real): seq<Point> {
    if s == [] then []
    else if s[0].t == t then [s[0]] + AtTime(s[1..], t)
    else AtTime(s[1..], t)
  }

  lemma OneInFront(p: Point, s: seq<Point>, t: real)
    ensures AtTime([p] + s, t) == if p.t == t then [p] + AtTime(s, t) else AtTime(s, t)
  {
    assert ([p] + s)[1..] == s;
  }

  lemma {:induction false} InsertAtTime(p: Point, s: seq<Point>, t: real)
    ensures AtTime(Insert(p, s), t) == if p.t == t then [p] + AtTime(s, t) else AtTime(s, t)
  {
    if s == [] || p.t <= s[0].t {
      OneInFront(p, s, t);
    } else {
      InsertAtTime(p, s[1..], t);
      OneInFront(s[0], Insert(p, s[1..]), t);
    }
  }

  /** Points of equal time keep their order. */
  lemma {:induction false} StableSortIsStable(s: seq<Point>, t: real)
    ensures AtTime(StableSort(s), t) == AtTime(s, t)
  {
    if s != [] {
      StableSortIsStable(s[1..], t);
      InsertAtTime(s[0], StableSort(s[1..]), t);
    }
  }

  lemma {:induction false} NoNewPoints(times: seq<real>, s: seq<Point>)
    requires forall i :: 0 <= i < |times| ==> !Covers(s, times[i])
    ensures NewPoints(times, s) == []
  {
    if times != [] {
      assert !Covers(s, times[|times|-1]);
      NoNewPoints(times[..|times|-1], s);
    }
  }

  /** With no new time inside the series it is returned as it is, in whatever order its points are. */
  lemma NothingNew(times: seq<real>, s: seq<Point>)
    requires forall i :: 0 <= i < |times| ==> UpTo(s, times[i]) == [] || After(s, times[i]) == []
    ensures Interpolated(times, s) == s
  {
    NoNewPoints(times, s);
  }

  lemma NewPointsMore(times: seq<real>, t: real, s: seq<Point>)
    ensures NewPoints(times + [t], s)
         == if Covers(s, t) then NewPoints(times, s) + [NewPoint(s, t)] else NewPoints(times, s)
  {
    assert (times + [t])[..|times|] == times;
  }

  lemma InterpolatedIs(times: seq<real>, s: seq<Point>, ps: seq<Point>)
    requires ps == NewPoints(times, s)
    ensures ps == [] ==> Interpolated(times, s) == s
    ensures ps != [] ==> Interpolated(times, s) == StableSort(ps + s)
  {
  }

  method InterpolateAoi(newTs: seq<real>, aoiTs: seq<Point>) returns (result: seq<Point>)
    ensures result == Interpolated(newTs, aoiTs)
  {
    var newEntries := [];
    for i := 0 to |newTs|
      invariant newEntries == NewPoints(newTs[..i], aoiTs)
    {
      var ts := newTs[i];
      NewPointsMore(newTs[..i], ts, aoiTs);
      assert newTs[..i+1] == newTs[..i] + [ts];
      if |UpTo(aoiTs, ts)| > 0 && |After(aoiTs, ts)| > 0 {
        newEntries := newEntries + [NewPoint(aoiTs, ts)];
      }
    }
    assert newTs[..|newTs|] == newTs;
    InterpolatedIs(newTs, aoiTs, newEntries);
    if |newEntries| == 0 {
      return aoiTs;
    }
    result := StableSort(newEntries + aoiTs);
  }

  // ---------- the sort

  lemma SortedCons(p: Point, r: seq<Point>)
    requires SortedByTime(r) && forall q :: q in r ==> p.t <= q.t
    ensures SortedByTime([p] + r)
  {
    forall i, j | 0 <= i < j < |r| + 1 ensures ([p] + r)[i].t <= ([p] + r)[j].t {
      assert r[j-1] in r;
    }
  }

  lemma {:induction false} InsertSorted(p: Point, s: seq<Point>)
    requires SortedByTime(s)
    ensures SortedByTime(Insert(p, s)) && multiset(Insert(p, s)) == multiset(s) + multiset{p}
    ensures forall q :: q in Insert(p, s) <==> q == p || q in s
  {
    if s == [] || p.t <= s[0].t {
      SortedCons(p, s);
    } else {
      assert s == [s[0]] + s[1..];
      InsertSorted(p, s[1..]);
      SortedCons(s[0], Insert(p, s[1..]));
    }
  }

  lemma {:induction false} StableSortSorts(s: seq<Point>)
    ensures SortedByTime(StableSort(s)) && multiset(StableSort(s)) == multiset(s)
  {
    if s != [] {
      StableSortSorts(s[1..]);
      InsertSorted(s[0], StableSort(s[1..]));
      assert s == [s[0]] + s[1..];
    }
  }

  lemma {:induction false} SortedIsFixed(s: seq<Point>)
    requires SortedByTime(s)
    ensures StableSort(s) == s
  {
    if s != [] {
      SortedIsFixed(s[1..]);
      assert s == [s[0]] + s[1..];
    }
  }

  /** Sorting points in front of a sorted series is inserting them, last one first. */
  ghost function InsertAll(ps: seq<Point>, s: seq<Point>): seq<Point> {
    if ps == [] then s else Insert(ps[0], InsertAll(ps[1..], s))
  }

  lemma {:induction false} SortIsInsertAll(ps: seq<Point>, s: seq<Point>)
    requires SortedByTime(s)
    ensures StableSort(ps + s) == InsertAll(ps, s)
  {
    if ps == [] {
      assert ps + s == s;
      SortedIsFixed(s);
    } else {
      assert (ps + s)[1..] == ps[1..] + s;
      SortIsInsertAll(ps[1..], s);
    }
  }

  lemma {:induction false} InsertAllSorted(ps: seq<Point>, s: seq<Point>)
    requires SortedByTime(s)
    ensures SortedByTime(InsertAll(ps, s)) && multiset(InsertAll(ps, s)) == multiset(ps) + multiset(s)
  {
    if ps != [] {
      InsertAllSorted(ps[1..], s);
      InsertSorted(ps[0], InsertAll(ps[1..], s));
      assert ps == [ps[0]] + ps[1..];
    }
  }

  // ---------- where a time falls in a sorted series

  /** The index of the first point later than t. */
  ghost function Split(s: seq<Point>, t: real): (k: nat)
    requires SortedByTime(s)
    ensures k <= |s|
    ensures forall i :: 0 <= i < |s| ==> (i < k <==> s[i].t <= t)
  {
    if s == [] then 0
    else if s[|s|-1].t <= t then |s|
    else Split(s[..|s|-1], t)
  }

  lemma {:induction false} AllUpTo(s: seq<Point>, t: real)
    requires forall i :: 0 <= i < |s| ==> s[i].t <= t
    ensures UpTo(s, t) == s
  {
    if s != [] {
      var front := s[..|s|-1];
      AllUpTo(front, t);
      assert s == front + [s[|s|-1]];
    }
  }

  lemma {:induction false} NoneAfter(s: seq<Point>, t: real)
    requires forall i :: 0 <= i < |s| ==> s[i].t <= t
    ensures After(s, t) == []
  {
    if s != [] {
      NoneAfter(s[..|s|-1], t);
    }
  }

  lemma {:induction false} SplitFilters(s: seq<Point>, t: real)
    requires SortedByTime(s)
    ensures UpTo(s, t) == s[..Split(s, t)] && After(s, t) == s[Split(s, t)..]
  {
    if s != [] {
      var n := |s| - 1;
      if s[n].t <= t {
        AllUpTo(s, t);
        NoneAfter(s, t);
      } else {
        SplitFilters(s[..n], t);
        var k := Split(s[..n], t);
        assert s[k..] == s[..n][k..] + [s[n]];
        assert s[..k] == s[..n][..k] + [];
      }
    }
  }

  lemma CoversIff(s: seq<Point>, t: real)
    requires SortedByTime(s)
    ensures Covers(s, t) <==> s != [] && s[0].t <= t < s[|s|-1].t
    ensures Covers(s, t) ==> var k := Split(s, t);
              0 < k < |s| && s[k-1].t <= t < s[k].t && NewPoint(s, t) == Point(t, Line(s[k-1], s[k], t))
  {
    SplitFilters(s, t);
  }

  // ---------- interpolated points that lie on the series leave the area alone

  ghost predicate OnLine(p: Point, q: Point, x: Point)
    requires p.t != q.t
  {
    x.age == Line(p, q, x.t)
  }

  /** q and r lie, in this order, on the climb or descent between the i-th point of s and the next. */
  ghost predicate OnSegment(s: seq<Point>, i: int, q: Point, r: Point) {
    && 0 <= i < |s| - 1
    && s[i].t <= q.t < r.t <= s[i+1].t
    && OnLine(s[i], s[i+1], q) && OnLine(s[i], s[i+1], r)
  }

  ghost predicate FollowsSegment(s: seq<Point>, q: Point, r: Point) {
    q.t < r.t ==> exists i :: OnSegment(s, i, q, r)
  }

  /** Between any two neighbours of different time, r follows a single segment of s. */
  ghost predicate Traces(r: seq<Point>, s: seq<Point>) {
    forall j :: 0 <= j < |r| - 1 ==> FollowsSegment(s, r[j], r[j+1])
  }

  lemma LineEnds(p: Point, q: Point)
    requires p.t != q.t
    ensures OnLine(p, q, p) && OnLine(p, q, q)
  {
    assert (q.age - p.age) * (q.t - p.t) / (q.t - p.t) == q.age - p.age;
  }

  lemma TracesItself(s: seq<Point>)
    ensures Traces(s, s)
  {
    forall j | 0 <= j < |s| - 1 ensures FollowsSegment(s, s[j], s[j+1]) {
      if s[j].t < s[j+1].t {
        LineEnds(s[j], s[j+1]);
        assert OnSegment(s, j, s[j], s[j+1]);
      }
    }
  }

  lemma Slope(p: Point, q: Point, x: Point)
    requires p.t != q.t && OnLine(p, q, x)
    ensures x.age == p.age + (q.age - p.age) / (q.t - p.t) * (x.t - p.t)
  {
    var w, d, h := q.t - p.t, q.age - p.age, x.t - p.t;
    assert d * h / w == d / w * h;
  }

  /** A point on the line through two others splits the area between them exactly. */
  lemma SplitTrapezoid(p: Point, q: Point, x: Point, y: Point, z: Point)
    requires p.t != q.t && OnLine(p, q, x) && OnLine(p, q, y) && OnLine(p, q, z)
    ensures Trapezoid(x, y) + Trapezoid(y, z) == Trapezoid(x, z)
  {
    Slope(p, q, x);
    Slope(p, q, y);
    Slope(p, q, z);
    var m := (q.age - p.age) / (q.t - p.t);
    LinearSplit(m, p.age - m * p.t, x, y, z);
  }

  lemma LinearSplit(m: real, c: real, x: Point, y: Point, z: Point)
    requires x.age == m * x.t + c && y.age == m * y.t + c && z.age == m * z.t + c
    ensures Trapezoid(x, y) + Trapezoid(y, z) == Trapezoid(x, z)
  {
    var a, b, d := x.t, y.t, z.t;
    assert (x.age + y.age) * (b - a) == m * (b * b - a * a) + 2.0 * c * (b - a);
    assert (y.age + z.age) * (d - b) == m * (d * d - b * b) + 2.0 * c * (d - b);
    assert (x.age + z.age) * (d - a) == m * (d * d - a * a) + 2.0 * c * (d - a);
  }

  lemma {:induction false} IntegralConcat(a: seq<Point>, b: seq<Point>)
    requires a != [] && b != []
    ensures Integral(a + b) == Integral(a) + Trapezoid(a[|a|-1], b[0]) + Integral(b)
    decreases |b|
  {
    var n := |b| - 1;
    if n == 0 {
      assert (a + b)[..|a|] == a;
    } else {
      IntegralConcat(a, b[..n]);
      assert (a + b)[..|a|+n] == a + b[..n];
    }
  }

  lemma {:induction false} InsertPosition(p: Point, r: seq<Point>) returns (k: nat)
    requires SortedByTime(r)
    ensures k <= |r| && Insert(p, r) == r[..k] + [p] + r[k..]
    ensures forall i :: 0 <= i < |r| ==> (i < k <==> r[i].t < p.t)
  {
    if r == [] || p.t <= r[0].t {
      k := 0;
    } else {
      k := InsertPosition(p, r[1..]);
      assert r[..k+1] == [r[0]] + r[1..][..k] && r[k+1..] == r[1..][k..];
      assert forall i :: 0 < i < |r| ==> r[i] == r[1..][i-1];
      k := k + 1;
    }
  }

  /** p lies on s, approached from the left: on the segment that leads up to its time, if there is one. */
  ghost predicate OnCurve(s: seq<Point>, p: Point) {
    && s != [] && s[0].t <= p.t < s[|s|-1].t
    && forall i {:trigger s[i]} :: 0 <= i < |s| - 1 && s[i].t < p.t <= s[i+1].t ==> OnLine(s[i], s[i+1], p)
  }

  lemma SplitOnCurve(s: seq<Point>, q: Point, p: Point, x: Point)
    requires OnCurve(s, p) && q.t < p.t <= x.t && FollowsSegment(s, q, x)
    ensures Trapezoid(q, p) + Trapezoid(p, x) == Trapezoid(q, x)
    ensures FollowsSegment(s, q, p) && FollowsSegment(s, p, x)
  {
    var i :| OnSegment(s, i, q, x);
    assert s[i].t < p.t <= s[i+1].t;
    SplitTrapezoid(s[i], s[i+1], q, p, x);
    assert OnSegment(s, i, q, p);
    assert p.t < x.t ==> OnSegment(s, i, p, x);
  }

  /** r holds all of s, in time order. */
  ghost predicate Spans(r: seq<Point>, s: seq<Point>) {
    r != [] && s != [] && SortedByTime(r) && r[0].t == s[0].t && r[|r|-1].t == s[|s|-1].t
  }

  lemma TwoParts(r: seq<Point>, k: nat)
    requires 0 < k < |r|
    ensures Integral(r) == Integral(r[..k]) + Trapezoid(r[k-1], r[k]) + Integral(r[k..])
  {
    assert r == r[..k] + r[k..];
    JoinedIntegral(r, r[..k], r[k..], r[k-1], r[k]);
  }

  lemma JoinedIntegral(r: seq<Point>, a: seq<Point>, b: seq<Point>, p: Point, q: Point)
    requires a != [] && b != [] && r == a + b && p == a[|a|-1] && q == b[0]
    ensures Integral(r) == Integral(a) + Trapezoid(p, q) + Integral(b)
  {
    IntegralConcat(a, b);
  }

  lemma ThreeParts(low: seq<Point>, p: Point, high: seq<Point>)
    requires low != [] && high != []
    ensures Integral(low + [p] + high)
         == Integral(low) + Trapezoid(low[|low|-1], p) + Trapezoid(p, high[0]) + Integral(high)
  {
    IntegralConcat([p], high);
    IntegralConcat(low, [p] + high);
    assert low + [p] + high == low + ([p] + high);
  }

  lemma InsertedArea(r: seq<Point>, k: nat, p: Point)
    requires 0 < k < |r|
    requires Trapezoid(r[k-1], p) + Trapezoid(p, r[k]) == Trapezoid(r[k-1], r[k])
    ensures Integral(r[..k] + [p] + r[k..]) == Integral(r)
  {
    TwoParts(r, k);
    ThreeParts(r[..k], p, r[k..]);
  }

  lemma InsertSpans(p: Point, r: seq<Point>, s: seq<Point>)
    requires Spans(r, s) && s[0].t <= p.t < s[|s|-1].t
    ensures Spans(Insert(p, r), s)
  {
    var k := InsertPosition(p, r);
    InsertSorted(p, r);
  }

  lemma InsertOnCurve(p: Point, r: seq<Point>, s: seq<Point>)
    requires Spans(r, s) && Traces(r, s) && OnCurve(s, p)
    ensures Integral(Insert(p, r)) == Integral(r)
    ensures Traces(Insert(p, r), s) && Spans(Insert(p, r), s)
  {
    var k := InsertPosition(p, r);
    InsertSpans(p, r, s);
    if k == 0 {
      InsertInFront(p, r, s);
    } else {
      assert r[k-1].t < p.t <= r[k].t;
      SplitAt(r, s, p, k);
      InsertedArea(r, k, p);
    }
  }

  lemma InsertInFront(p: Point, r: seq<Point>, s: seq<Point>)
    requires r != [] && Traces(r, s) && p.t == r[0].t
    ensures Integral([p] + r) == Integral(r) && Traces([p] + r, s)
    ensures r[..0] + [p] + r[0..] == [p] + r
  {
    FrontAddsNothing(p, r);
    assert r[..0] + [p] + r[0..] == [p] + r;
    assert Traces([p] + r, s) by {
      InsertTraces(r, s, p, 0);
    }
  }

  lemma FrontAddsNothing(p: Point, r: seq<Point>)
    requires r != [] && p.t == r[0].t
    ensures Integral([p] + r) == Integral(r)
  {
    IntegralConcat([p], r);
    NoWidth(p, r[0]);
  }

  lemma NoWidth(p: Point, q: Point)
    requires p.t == q.t
    ensures Trapezoid(p, q) == 0.0
  {
    var h := (p.age + q.age) / 2.0;
    assert h * 0.0 == 0.0;
  }

  lemma SplitAt(r: seq<Point>, s: seq<Point>, p: Point, k: nat)
    requires 0 < k < |r| && Traces(r, s) && OnCurve(s, p) && r[k-1].t < p.t <= r[k].t
    ensures Trapezoid(r[k-1], p) + Trapezoid(p, r[k]) == Trapezoid(r[k-1], r[k])
    ensures Traces(r[..k] + [p] + r[k..], s)
  {
    assert FollowsSegment(s, r[k-1], r[k-1+1]);
    SplitOnCurve(s, r[k-1], p, r[k]);
    InsertTraces(r, s, p, k);
  }

  lemma InsertTraces(r: seq<Point>, s: seq<Point>, p: Point, k: nat)
    requires Traces(r, s) && k < |r|
    requires k > 0 ==> FollowsSegment(s, r[k-1], p)
    requires FollowsSegment(s, p, r[k])
    ensures Traces(r[..k] + [p] + r[k..], s)
  {
    var t := r[..k] + [p] + r[k..];
    forall j | 0 <= j < |t| - 1 ensures FollowsSegment(s, t[j], t[j+1]) {
      if j < k - 1 {
        assert FollowsSegment(s, r[j], r[j+1]);
      } else if j > k {
        assert FollowsSegment(s, r[j-1], r[j-1+1]);
      }
    }
  }

  lemma {:induction false} InsertAllOnCurve(ps: seq<Point>, s: seq<Point>)
    requires s != [] && SortedByTime(s) && forall p :: p in ps ==> OnCurve(s, p)
    ensures Integral(InsertAll(ps, s)) == Integral(s)
    ensures Traces(InsertAll(ps, s), s) && Spans(InsertAll(ps, s), s)
  {
    if ps == [] {
      TracesItself(s);
    } else {
      InsertAllOnCurve(ps[1..], s);
      InsertOnCurve(ps[0], InsertAll(ps[1..], s), s);
    }
  }

  // ---------- lower points, less area

  /** The same times, and nowhere a greater age. */
  ghost predicate Below(a: seq<Point>, b: seq<Point>) {
    |a| == |b| && forall i :: 0 <= i < |a| ==> a[i].t == b[i].t && a[i].age <= b[i].age
  }

  lemma LowerTrapezoid(p: Point, q: Point, x: Point, y: Point)
    requires p.t == x.t && q.t == y.t && p.t <= q.t && p.age <= x.age && q.age <= y.age
    ensures Trapezoid(p, q) <= Trapezoid(x, y)
    ensures p.t < q.t && q.age < y.age ==> Trapezoid(p, q) < Trapezoid(x, y)
  {
    var w, a, b := q.t - p.t, (p.age + q.age) / 2.0, (x.age + y.age) / 2.0;
    assert a * w <= b * w;
    if p.t < q.t && q.age < y.age {
      assert a * w < b * w;
    }
  }

  /** Some point is strictly lower, the first one of its time, and not the first of all. */
  ghost predicate LowerAt(a: seq<Point>, b: seq<Point>, j: int) {
    0 < j < |a| == |b| && a[j-1].t < a[j].t && a[j].age < b[j].age
  }

  lemma {:induction false} LowerIntegral(a: seq<Point>, b: seq<Point>)
    requires Below(a, b) && SortedByTime(a)
    ensures Integral(a) <= Integral(b)
    ensures (exists j :: LowerAt(a, b, j)) ==> Integral(a) < Integral(b)
  {
    if |a| > 1 {
      var n := |a| - 1;
      LowerIntegral(a[..n], b[..n]);
      LowerTrapezoid(a[n-1], a[n], b[n-1], b[n]);
      if j :| LowerAt(a, b, j) {
        assert j < n ==> LowerAt(a[..n], b[..n], j);
      }
    }
  }

  lemma {:induction false} InsertBelow(p: Point, a: seq<Point>, q: Point, b: seq<Point>)
    requires Below(a, b) && p.t == q.t && p.age <= q.age
    ensures Below(Insert(p, a), Insert(q, b))
  {
    if a != [] && p.t > a[0].t {
      InsertBelow(p, a[1..], q, b[1..]);
      var x, y := Insert(p, a[1..]), Insert(q, b[1..]);
      assert forall i :: 0 < i < |x| + 1 ==> ([a[0]] + x)[i] == x[i-1] && ([b[0]] + y)[i] == y[i-1];
    }
  }

  lemma {:induction false} InsertAllBelow(ps: seq<Point>, qs: seq<Point>, s: seq<Point>)
    requires Below(ps, qs)
    ensures Below(InsertAll(ps, s), InsertAll(qs, s))
  {
    if ps != [] {
      InsertAllBelow(ps[1..], qs[1..], s);
      InsertBelow(ps[0], InsertAll(ps[1..], s), qs[0], InsertAll(qs[1..], s));
    }
  }

  // ---------- the interpolated points against the curve

  /** At equal times the series only falls, as every series of ages does. */
  ghost predicate FallsOnly(s: seq<Point>) {
    forall i, j :: 0 <= i < j < |s| && s[i].t == s[j].t ==> s[i].age >= s[j].age
  }

  /** The series falls at time t, which is strictly inside its time range. */
  ghost predicate InnerFall(s: seq<Point>, t: real) {
    && s != [] && s[0].t < t < s[|s|-1].t
    && exists i, j :: 0 <= i < j < |s| && s[i].t == t == s[j].t && s[i].age != s[j].age
  }

  /** The point of the curve at time t: where a fall starts, if there is one at t. */
  ghost function Lifted(s: seq<Point>, t: real): (p: Point)
    requires SortedByTime(s) && Covers(s, t)
  {
    CoversIff(s, t);
    if t == s[0].t then NewPoint(s, t)
    else
      var m := FirstNotBefore(s, t);
      Point(t, Line(s[m-1], s[m], t))
  }

  ghost function FirstNotBefore(s: seq<Point>, t: real): (m: nat)
    requires SortedByTime(s) && s != [] && s[0].t < t <= s[|s|-1].t
    ensures 0 < m < |s| && s[m-1].t < t <= s[m].t
    decreases |s|
  {
    var n := |s| - 1;
    if s[n-1].t < t then n else FirstNotBefore(s[..n], t)
  }

  lemma LiftedOnCurve(s: seq<Point>, t: real)
    requires SortedByTime(s) && Covers(s, t)
    ensures OnCurve(s, Lifted(s, t)) && Lifted(s, t).t == t
  {
    CoversIff(s, t);
    var p := Lifted(s, t);
    if t != s[0].t {
      var m := FirstNotBefore(s, t);
      forall i | 0 <= i < |s| - 1 && s[i].t < p.t <= s[i+1].t ensures OnLine(s[i], s[i+1], p) {
        assert i + 1 == m;
      }
    }
  }

  lemma FallAt(s: seq<Point>, t: real, m: nat, k: nat)
    requires SortedByTime(s) && FallsOnly(s) && s != [] && s[0].t < t < s[|s|-1].t && m < k <= |s|
    requires s[m].t == t == s[k-1].t && forall i :: 0 <= i < |s| && s[i].t == t ==> m <= i < k
    ensures s[k-1].age <= s[m].age
    ensures s[k-1].age < s[m].age <==> InnerFall(s, t)
  {
    if InnerFall(s, t) {
      var i, j :| 0 <= i < j < |s| && s[i].t == t == s[j].t && s[i].age != s[j].age;
      assert s[m].age >= s[i].age && s[j].age >= s[k-1].age;
    }
    assert m == k - 1 || m < k - 1;
  }

  /** The interpolated point takes the value after a fall, so it is below the curve just there. */
  lemma NewPointIsLower(s: seq<Point>, t: real)
    requires SortedByTime(s) && FallsOnly(s) && Covers(s, t)
    ensures NewPoint(s, t).t == t && NewPoint(s, t).age <= Lifted(s, t).age
    ensures NewPoint(s, t).age < Lifted(s, t).age <==> InnerFall(s, t)
  {
    CoversIff(s, t);
    if t != s[0].t {
      var k, m := Split(s, t), FirstNotBefore(s, t);
      if s[m].t == t {
        LineEnds(s[m-1], s[m]);
        LineEnds(s[k-1], s[k]);
        assert s[k-1].t == t by { assert m < k; }
        FallAt(s, t, m, k);
      } else {
        assert m == k;
      }
    }
  }

  ghost function LiftedPoints(times: seq<real>, s: seq<Point>): seq<Point>
    requires SortedByTime(s)
  {
    if times == [] then []
    else
      var n := |times| - 1;
      LiftedPoints(times[..n], s) + if Covers(s, times[n]) then [Lifted(s, times[n])] else []
  }

  ghost predicate HasTime(ps: seq<Point>, t: real) {
    exists i :: 0 <= i < |ps| && ps[i].t == t
  }

  /** ps are the new points for the given times, qs the points of the curve at the same times. */
  ghost predicate Paired(s: seq<Point>, times: seq<real>, ps: seq<Point>, qs: seq<Point>) {
    && Below(ps, qs)
    && (forall i :: 0 <= i < |qs| ==> OnCurve(s, qs[i]))
    && (forall i :: 0 <= i < |ps| ==> ps[i].t in times && (ps[i].age < qs[i].age <==> InnerFall(s, ps[i].t)))
    && (forall t :: t in times && Covers(s, t) ==> HasTime(ps, t))
  }

  lemma HasTimeMore(ps: seq<Point>, p: Point, t: real)
    requires HasTime(ps, t) || p.t == t
    ensures HasTime(ps + [p], t)
  {
    if p.t == t {
      assert (ps + [p])[|ps|].t == t;
    } else {
      var i :| 0 <= i < |ps| && ps[i].t == t;
      assert (ps + [p])[i].t == t;
    }
  }

  lemma PairedMore(s: seq<Point>, times: seq<real>, ps: seq<Point>, qs: seq<Point>, p: Point, q: Point)
    requires Paired(s, times, ps, qs)
    requires p.t == q.t && p.age <= q.age && OnCurve(s, q) && (p.age < q.age <==> InnerFall(s, p.t))
    ensures Paired(s, times + [p.t], ps + [p], qs + [q])
  {
    forall t | t in times + [p.t] && Covers(s, t) ensures HasTime(ps + [p], t) {
      HasTimeMore(ps, p, t);
    }
  }

  lemma PairedSkip(s: seq<Point>, times: seq<real>, ps: seq<Point>, qs: seq<Point>, t: real)
    requires Paired(s, times, ps, qs) && !Covers(s, t)
    ensures Paired(s, times + [t], ps, qs)
  {
  }

  lemma {:induction false} NewPointsBelowLifted(times: seq<real>, s: seq<Point>)
    requires SortedByTime(s) && FallsOnly(s)
    ensures Paired(s, times, NewPoints(times, s), LiftedPoints(times, s))
  {
    if times != [] {
      var n := |times| - 1;
      var t := times[n];
      var ps, qs := NewPoints(times[..n], s), LiftedPoints(times[..n], s);
      NewPointsBelowLifted(times[..n], s);
      assert times == times[..n] + [t];
      if Covers(s, t) {
        LiftedOnCurve(s, t);
        NewPointIsLower(s, t);
        PairedMore(s, times[..n], ps, qs, NewPoint(s, t), Lifted(s, t));
      } else {
        PairedSkip(s, times[..n], ps, qs, t);
        assert ps + [] == ps && qs + [] == qs;
      }
    }
  }

  /** The first point of time t is strictly lower in a than in b. */
  ghost predicate StrictlyLowerAt(a: seq<Point>, b: seq<Point>, t: real) {
    exists j :: 0 <= j < |a| && j < |b| && FirstOfTime(a, j, t) && a[j].age < b[j].age
  }

  ghost predicate FirstOfTime(a: seq<Point>, j: nat, t: real)
    requires j < |a|
  {
    a[j].t == t && forall i :: 0 <= i < j ==> a[i].t < t
  }

  lemma SamePosition(p: Point, a: seq<Point>, q: Point, b: seq<Point>) returns (k: nat)
    requires SortedByTime(a) && Below(a, b) && p.t == q.t
    ensures k <= |a| == |b| && Insert(p, a) == a[..k] + [p] + a[k..] && Insert(q, b) == b[..k] + [q] + b[k..]
    ensures forall i :: 0 <= i < |a| ==> (i < k <==> a[i].t < p.t)
  {
    k := InsertPosition(p, a);
    var m := InsertPosition(q, b);
    assert k < |a| ==> b[k].t >= q.t;
    assert m < |b| ==> a[m].t >= p.t;
  }

  lemma LowerHere(a: seq<Point>, b: seq<Point>, k: nat, p: Point, q: Point)
    requires k <= |a| == |b| && p.age < q.age && forall i :: 0 <= i < k ==> a[i].t < p.t
    ensures StrictlyLowerAt(a[..k] + [p] + a[k..], b[..k] + [q] + b[k..], p.t)
  {
    assert FirstOfTime(a[..k] + [p] + a[k..], k, p.t);
  }

  lemma LowerStill(a: seq<Point>, b: seq<Point>, k: nat, p: Point, q: Point, t: real)
    requires k <= |a| == |b| && StrictlyLowerAt(a, b, t) && p.t != t
    requires forall i :: 0 <= i < |a| ==> (i < k <==> a[i].t < p.t)
    ensures StrictlyLowerAt(a[..k] + [p] + a[k..], b[..k] + [q] + b[k..], t)
  {
    var j :| 0 <= j < |a| && j < |b| && FirstOfTime(a, j, t) && a[j].age < b[j].age;
    var x := a[..k] + [p] + a[k..];
    var m := if j < k then j else j + 1;
    assert x[m] == a[j] && (b[..k] + [q] + b[k..])[m] == b[j];
    assert FirstOfTime(x, m, t);
  }

  lemma {:induction false} InsertAllStrict(ps: seq<Point>, qs: seq<Point>, s: seq<Point>, t: real)
    requires SortedByTime(s) && Below(ps, qs) && HasTime(ps, t)
    requires forall i :: 0 <= i < |ps| && ps[i].t == t ==> ps[i].age < qs[i].age
    ensures StrictlyLowerAt(InsertAll(ps, s), InsertAll(qs, s), t)
  {
    var a, b := InsertAll(ps[1..], s), InsertAll(qs[1..], s);
    InsertAllSorted(ps[1..], s);
    InsertAllBelow(ps[1..], qs[1..], s);
    var k := SamePosition(ps[0], a, qs[0], b);
    if ps[0].t == t {
      LowerHere(a, b, k, ps[0], qs[0]);
    } else {
      var i :| 0 <= i < |ps| && ps[i].t == t;
      assert ps[1..][i-1].t == t;
      InsertAllStrict(ps[1..], qs[1..], s, t);
      LowerStill(a, b, k, ps[0], qs[0], t);
    }
  }

  /** On a time-sorted series, interpolation keeps every point, stays sorted, never adds area, and keeps
      the area exactly when no new time meets a fall inside the series. */
  lemma InterpolationArea(times: seq<real>, s: seq<Point>)
    requires SortedByTime(s) && FallsOnly(s)
    ensures SortedByTime(Interpolated(times, s))
    ensures multiset(Interpolated(times, s)) == multiset(NewPoints(times, s)) + multiset(s)
    ensures Integral(Interpolated(times, s)) <= Integral(s)
    ensures Integral(Interpolated(times, s)) == Integral(s) <==> forall t :: t in times ==> !InnerFall(s, t)
  {
    var ps, qs := NewPoints(times, s), LiftedPoints(times, s);
    SortIsInsertAll(ps, s);
    InsertAllSorted(ps, s);
    NewPointsBelowLifted(times, s);
    if s == [] {
      assert ps == [];
    } else {
      CurveArea(times, s, ps, qs);
    }
  }

  lemma CurveArea(times: seq<real>, s: seq<Point>, ps: seq<Point>, qs: seq<Point>)
    requires s != [] && SortedByTime(s) && Paired(s, times, ps, qs)
    ensures Integral(InsertAll(ps, s)) <= Integral(s)
    ensures Integral(InsertAll(ps, s)) == Integral(s) <==> forall t :: t in times ==> !InnerFall(s, t)
  {
    var a, b := InsertAll(ps, s), InsertAll(qs, s);
    InsertAllOnCurve(qs, s);
    InsertAllSorted(ps, s);
    InsertAllBelow(ps, qs, s);
    LowerIntegral(a, b);
    if t :| t in times && InnerFall(s, t) {
      CoversIff(s, t);
      InsertAllStrict(ps, qs, s, t);
      FirstLower(a, b, s, t);
    } else {
      assert forall i :: 0 <= i < |ps| ==> ps[i] == qs[i];
      assert ps == qs;
    }
  }

  lemma FirstLower(a: seq<Point>, b: seq<Point>, s: seq<Point>, t: real)
    requires Below(a, b) && Spans(b, s) && s[0].t < t && StrictlyLowerAt(a, b, t)
    ensures exists j :: LowerAt(a, b, j)
  {
    var j :| 0 <= j < |a| && j < |b| && FirstOfTime(a, j, t) && a[j].age < b[j].age;
    assert a[0].t == s[0].t;
    assert LowerAt(a, b, j);
  }

  // ---------- age series are such series

  lemma {:induction false} ShapeFallsOnly(s: seq<Point>, i: nat, j: nat)
    requires SawtoothShape(s) && SortedByTime(s) && i <= j < |s| && s[i].t == s[j].t
    ensures s[i].age >= s[j].age
    decreases j
  {
    if i < j {
      ShapeFallsOnly(s, i, j - 1);
      assert Rises(s[j-1], s[j-1+1]) || Drops(s[j-1], s[j-1+1]);
    }
  }

  /** So on an age series interpolation keeps the area exactly when no new time is that of an inner fall. */
  lemma SawtoothInterpolation(times: seq<real>, rs: seq<Point>)
    requires SortedByTime(rs)
    ensures var s := Sawtooth(rs);
            && Integral(Interpolated(times, s)) <= Integral(s)
            && (Integral(Interpolated(times, s)) == Integral(s) <==> forall t :: t in times ==> !InnerFall(s, t))
  {
    var s := Sawtooth(rs);
    SawtoothHasShape(rs);
    SawtoothKeepsTimeOrder(rs);
    forall i, j | 0 <= i < j < |s| && s[i].t == s[j].t ensures s[i].age >= s[j].age {
      ShapeFallsOnly(s, i, j);
    }
    InterpolationArea(times, s);
  }

  lemma AreaIsLost(rs: seq<Point>, t: real)
    requires SortedByTime(rs) && InnerFall(Sawtooth(rs), t)
    ensures Integral(Interpolated([t], Sawtooth(rs))) < Integral(Sawtooth(rs))
  {
    SawtoothInterpolation([t], rs);
    assert t in [t];
  }

  lemma TwoReceptions(p: Point, q: Point)
    requires Generated(p) < Generated(q) < T_MAX
    ensures Sawtooth(WithSentinel([p, q]))
         == [p, Point(q.t, q.t - Generated(p)), q, Point(T_MAX, T_MAX - Generated(q)), Point(T_MAX, 0.0)]
  {
    assert [p, q] == [p] + [q] && [p, q][..1] == [p];
    SawtoothMore([p], q);
    FreshBlock([p], q);
    SentinelFallsToZero([p, q]);
  }

  /** Two receptions before T_MAX, the later one with news. */
  predicate SecondBringsNews(p: Point, q: Point) {
    Generated(p) < Generated(q) && p.t < q.t < T_MAX && q.age >= 0.0
  }

  lemma SecondReceptionFalls(p: Point, q: Point)
    requires SecondBringsNews(p, q)
    ensures SortedByTime(WithSentinel([p, q])) && InnerFall(Sawtooth(WithSentinel([p, q])), q.t)
  {
    TwoReceptions(p, q);
    var s := Sawtooth(WithSentinel([p, q]));
    assert s[1].t == q.t == s[2].t && s[1].age != s[2].age;
  }

  /** Then a new point at the time of the second one takes the value after the fall, and area is lost. */
  lemma InterpolationLosesArea(p: Point, q: Point)
    requires SecondBringsNews(p, q)
    ensures var s := Sawtooth(WithSentinel([p, q]));
            Integral(Interpolated([q.t], s)) < Integral(s)
  {
    SecondReceptionFalls(p, q);
    AreaIsLost(WithSentinel([p, q]), q.t);
  }

  /** For example, with a packet received at time 0 with delay 0 and one received at time 10 with delay 2. */
  lemma LosingInput()
    ensures SecondBringsNews(Point(0.0, 0.0), Point(10.0, 2.0))
  {
  }
}
